/**
 * The markup rules of the content script: a flat amount, a percentage of the
 * price, or a table of `"min-max"` ranges that is tried entry by entry.
 */
module Markup {
  import opened Wrappers
  import opened JsText
  import opened JsNumber

  /** `markupType`. `Unlisted` is every other value, such as the popup's `matrixPercentage`. */
  datatype MarkupType = Flat | Percentage | Matrix | Unlisted

  /** One `[range, rate]` pair of `Object.entries(matrixRates)`, in enumeration order. */
  datatype RateEntry = RateEntry(range: string, rate: real)

  /** The settings record the content script works from. */
  datatype Settings = Settings(
    enabled: bool,
    markupType: MarkupType,
    flatRate: real,
    percentage: real,
    showIndicator: bool,
    matrixRates: seq<RateEntry>)

  /** The range table the content script starts with. */
  const DefaultRates: seq<RateEntry> := [
    RateEntry("0-10", 5.0), RateEntry("11-20", 10.0), RateEntry("21-30", 15.0),
    RateEntry("31-40", 20.0), RateEntry("41-50", 25.0), RateEntry("51+", 30.0)]

  /** The settings in force before any are loaded: disabled, flat 0, indicators shown. */
  const DefaultSettings: Settings := Settings(false, Flat, 0.0, 0.0, true, DefaultRates)

  /** `price >= n` for a JavaScript number `n`; every comparison with NaN is false. */
  predicate AtLeast(price: real, n: JsNum) {
    match n
    case Finite(v) => price >= v
    case Infinite(negative) => negative
    case NaN => false
  }

  /** `price <= n` for a JavaScript number `n`. */
  predicate AtMost(price: real, n: JsNum) {
    match n
    case Finite(v) => price <= v
    case Infinite(negative) => !negative
    case NaN => false
  }

  /** `min` of `const [min, max] = range.split('-').map(Number)`. */
  function LowerBound(range: string): JsNum {
    ToNumber(Split(range, '-')[0])
  }

  /** `max` of the same destructuring; None when it is `undefined` (no `-` in the key). */
  function UpperBound(range: string): Option<JsNum> {
    var parts := Split(range, '-');
    if |parts| >= 2 then Some(ToNumber(parts[1])) else None
  }

  /** `max ? price <= max : true`: an absent, zero or NaN `max` bounds nothing. */
  predicate BelowMax(price: real, max: Option<JsNum>) {
    max.Some? && Truthy(max.value) ==> AtMost(price, max.value)
  }

  /** `price >= min && (max ? price <= max : true)`. */
  predicate KeyMatches(price: real, range: string) {
    AtLeast(price, LowerBound(range)) && BelowMax(price, UpperBound(range))
  }

  /**
   * The loop of `calculateMatrixMarkup` for a range test `matches`: the rate of
   * the first entry whose range passes, applied to the price; 0 when none does.
   */
  function FirstMatchMarkup(price: real, rates: seq<RateEntry>, matches: (real, string) -> bool): real {
    if rates == [] then 0.0
    else if matches(price, rates[0].range) then price * (rates[0].rate / 100.0)
    else FirstMatchMarkup(price, rates[1..], matches)
  }

  /** `calculateMatrixMarkup`. */
  function MatrixMarkup(price: real, rates: seq<RateEntry>): real {
    FirstMatchMarkup(price, rates, KeyMatches)
  }

  /** `calculateMarkup`. */
  function CalculateMarkup(s: Settings, price: real): real {
    match s.markupType
    case Flat => s.flatRate
    case Percentage => price * (s.percentage / 100.0)
    case Matrix => MatrixMarkup(price, s.matrixRates)
    case Unlisted => 0.0
  }

  // ---------------------------------------------------------------------------
  // The rules.

  /** The flat rule adds `flatRate` whatever the price. */
  lemma FlatIgnoresPrice(s: Settings, a: real, b: real)
    requires s.markupType == Flat
    ensures CalculateMarkup(s, a) == CalculateMarkup(s, b) == s.flatRate
  {
  }

  /** The percentage rule is proportional to the price. */
  lemma PercentageProportional(s: Settings, price: real)
    requires s.markupType == Percentage
    ensures CalculateMarkup(s, price) * 100.0 == price * s.percentage
  {
  }

  /** A type the content script does not know adds nothing. */
  lemma UnlistedAddsNothing(s: Settings, price: real)
    requires s.markupType == Unlisted
    ensures CalculateMarkup(s, price) == 0.0
  {
  }

  /** The first matching entry decides, whatever the entries after it say. */
  lemma {:induction false} FirstMatchWins(price: real, rates: seq<RateEntry>, i: nat, matches: (real, string) -> bool)
    requires i < |rates| && matches(price, rates[i].range)
    requires forall k | 0 <= k < i :: !matches(price, rates[k].range)
    ensures FirstMatchMarkup(price, rates, matches) == price * (rates[i].rate / 100.0)
  {
    if i > 0 {
      var rest := rates[1..];
      assert forall k | 0 <= k < i - 1 :: !matches(price, rest[k].range) by {
        forall k | 0 <= k < i - 1 ensures !matches(price, rest[k].range) {
          assert rest[k] == rates[k + 1];
        }
      }
      assert rest[i - 1] == rates[i];
      FirstMatchWins(price, rest, i - 1, matches);
    }
  }

  /** With no matching entry the table adds nothing. */
  lemma {:induction false} NoMatchAddsNothing(price: real, rates: seq<RateEntry>, matches: (real, string) -> bool)
    requires forall k | 0 <= k < |rates| :: !matches(price, rates[k].range)
    ensures FirstMatchMarkup(price, rates, matches) == 0.0
  {
    if rates != [] {
      var rest := rates[1..];
      assert forall k | 0 <= k < |rest| :: !matches(price, rest[k].range) by {
        forall k | 0 <= k < |rest| ensures !matches(price, rest[k].range) {
          assert rest[k] == rates[k + 1];
        }
      }
      NoMatchAddsNothing(price, rest, matches);
    }
  }

  /** For a non-negative price and rates in `[0, cap]` the table adds between 0 and `cap` percent. */
  lemma {:induction false} FirstMatchBounds(price: real, rates: seq<RateEntry>, cap: real, matches: (real, string) -> bool)
    requires price >= 0.0 && cap >= 0.0
    requires forall k | 0 <= k < |rates| :: 0.0 <= rates[k].rate <= cap
    ensures 0.0 <= FirstMatchMarkup(price, rates, matches) * 100.0 <= price * cap
  {
    if rates == [] {
      MulMonotone(price, 0.0, cap);
    } else if matches(price, rates[0].range) {
      var r := rates[0].rate;
      MulMonotone(price, r, cap);
      RateApplied(price, r);
    } else {
      var rest := rates[1..];
      assert forall k | 0 <= k < |rest| :: 0.0 <= rest[k].rate <= cap by {
        forall k | 0 <= k < |rest| ensures 0.0 <= rest[k].rate <= cap {
          assert rest[k] == rates[k + 1];
        }
      }
      FirstMatchBounds(price, rest, cap, matches);
    }
  }

  lemma MulMonotone(x: real, a: real, b: real)
    requires x >= 0.0 && 0.0 <= a <= b
    ensures 0.0 <= x * a <= x * b
  {
  }

  lemma RateApplied(price: real, r: real)
    ensures price * (r / 100.0) * 100.0 == price * r
  {
  }

  // ---------------------------------------------------------------------------
  // The `"min-max"` keys.

  /** A key `lo-hi` of two digit strings matches a price in `[lo, hi]`, or from `lo` up when `hi` is 0. */
  lemma KeyMatchesDigitRange(price: real, range: string, lo: string, hi: string)
    requires AllDigits(lo) && lo != [] && AllDigits(hi) && hi != []
    requires range == lo + "-" + hi
    ensures KeyMatches(price, range)
        <==> DigitsValue(lo) as real <= price && (DigitsValue(hi) == 0 || price <= DigitsValue(hi) as real)
  {
    assert '-' !in lo by { assert forall k | 0 <= k < |lo| :: IsDigit(lo[k]); }
    assert '-' !in hi by { assert forall k | 0 <= k < |hi| :: IsDigit(hi[k]); }
    SplitTwo(lo, hi, '-');
    ToNumberDigits(lo);
    ToNumberDigits(hi);
  }

  /** The same for a key written from two whole numbers, as `"11-20"` is. */
  lemma KeyMatchesNumberRange(price: real, range: string, lo: nat, hi: nat)
    requires range == NatToDigits(lo) + "-" + NatToDigits(hi)
    ensures KeyMatches(price, range) <==> lo as real <= price && (hi == 0 || price <= hi as real)
  {
    KeyMatchesDigitRange(price, range, NatToDigits(lo), NatToDigits(hi));
  }

  /** A key without `-` has no upper bound: it matches from its own value up. */
  lemma KeyWithoutDash(price: real, range: string)
    requires '-' !in range
    ensures KeyMatches(price, range) <==> AtLeast(price, ToNumber(range))
  {
    SplitNoSeparator(range, '-');
  }

  /** `Number("51+")` is NaN: the literal must take up the whole string. */
  lemma OpenEndedKeyIsNaN()
    ensures ToNumber("51+") == NaN
  {
    var s := "51+";
    TrimOfTrimmed(s);
    assert DigitRun(s, 0) == 2 by { DigitRunExact(s, 0, 2); }
    assert ScanExponent(s, 2) == (2, 0);
    assert ScanDecimalLiteral(s, 0).Some? && ScanDecimalLiteral(s, 0).value.0 == 2;
  }

  /** A key without `-` whose value is NaN never matches, whatever the price. */
  lemma NaNKeyNeverMatches(price: real, range: string)
    requires '-' !in range && ToNumber(range) == NaN
    ensures !KeyMatches(price, range)
  {
    KeyWithoutDash(price, range);
  }

  /** The default entry `"0-10"` matches the prices from 0 to 10. */
  lemma ZeroToTen(price: real)
    ensures KeyMatches(price, DefaultRates[0].range) <==> 0.0 <= price <= 10.0
  {
    var r := DefaultRates[0].range;
    assert r == NatToDigits(0) + "-" + NatToDigits(10);
    KeyMatchesNumberRange(price, r, 0, 10);
  }

  /** The default entry `"11-20"` matches the prices from 11 to 20. */
  lemma ElevenToTwenty(price: real)
    ensures KeyMatches(price, DefaultRates[1].range) <==> 11.0 <= price <= 20.0
  {
    var r := DefaultRates[1].range;
    assert r == NatToDigits(11) + "-" + NatToDigits(20);
    KeyMatchesNumberRange(price, r, 11, 20);
  }

  /** The default entry `"21-30"` matches the prices from 21 to 30. */
  lemma TwentyOneToThirty(price: real)
    ensures KeyMatches(price, DefaultRates[2].range) <==> 21.0 <= price <= 30.0
  {
    var r := DefaultRates[2].range;
    assert r == NatToDigits(21) + "-" + NatToDigits(30);
    KeyMatchesNumberRange(price, r, 21, 30);
  }

  /** The default entry `"31-40"` matches the prices from 31 to 40. */
  lemma ThirtyOneToForty(price: real)
    ensures KeyMatches(price, DefaultRates[3].range) <==> 31.0 <= price <= 40.0
  {
    var r := DefaultRates[3].range;
    assert r == NatToDigits(31) + "-" + NatToDigits(40);
    KeyMatchesNumberRange(price, r, 31, 40);
  }

  /** The default entry `"41-50"` matches the prices from 41 to 50. */
  lemma FortyOneToFifty(price: real)
    ensures KeyMatches(price, DefaultRates[4].range) <==> 41.0 <= price <= 50.0
  {
    var r := DefaultRates[4].range;
    assert r == NatToDigits(41) + "-" + NatToDigits(50);
    KeyMatchesNumberRange(price, r, 41, 50);
  }

  /** The default entry `"51+"` matches no price. */
  lemma FiftyOneUp(price: real)
    ensures !KeyMatches(price, DefaultRates[5].range)
  {
    var r := DefaultRates[5].range;
    assert r == "51+";
    OpenEndedKeyIsNaN();
    NaNKeyNeverMatches(price, r);
  }

  /** Which entries of the default table match a price. */
  lemma DefaultKeys(price: real)
    ensures KeyMatches(price, DefaultRates[0].range) <==> 0.0 <= price <= 10.0
    ensures KeyMatches(price, DefaultRates[1].range) <==> 11.0 <= price <= 20.0
    ensures KeyMatches(price, DefaultRates[2].range) <==> 21.0 <= price <= 30.0
    ensures KeyMatches(price, DefaultRates[3].range) <==> 31.0 <= price <= 40.0
    ensures KeyMatches(price, DefaultRates[4].range) <==> 41.0 <= price <= 50.0
    ensures !KeyMatches(price, DefaultRates[5].range)
  {
    ZeroToTen(price);
    ElevenToTwenty(price);
    TwentyOneToThirty(price);
    ThirtyOneToForty(price);
    FortyOneToFifty(price);
    FiftyOneUp(price);
  }

  /**
   * A table whose first five ranges behave like the default ones: 5%, 10%, 15%,
   * 20% and 25% on the prices from 0 to 10, 11 to 20, ..., 41 to 50.
   */
  lemma FiveTiers(price: real, rates: seq<RateEntry>, matches: (real, string) -> bool)
    requires |rates| == 6
    requires matches(price, rates[0].range) <==> 0.0 <= price <= 10.0
    requires matches(price, rates[1].range) <==> 11.0 <= price <= 20.0
    requires matches(price, rates[2].range) <==> 21.0 <= price <= 30.0
    requires matches(price, rates[3].range) <==> 31.0 <= price <= 40.0
    requires matches(price, rates[4].range) <==> 41.0 <= price <= 50.0
    requires rates[0].rate == 5.0 && rates[1].rate == 10.0 && rates[2].rate == 15.0
    requires rates[3].rate == 20.0 && rates[4].rate == 25.0
    ensures 0.0 <= price <= 10.0 ==> FirstMatchMarkup(price, rates, matches) == price * 0.05
    ensures 11.0 <= price <= 20.0 ==> FirstMatchMarkup(price, rates, matches) == price * 0.1
    ensures 21.0 <= price <= 30.0 ==> FirstMatchMarkup(price, rates, matches) == price * 0.15
    ensures 31.0 <= price <= 40.0 ==> FirstMatchMarkup(price, rates, matches) == price * 0.2
    ensures 41.0 <= price <= 50.0 ==> FirstMatchMarkup(price, rates, matches) == price * 0.25
  {
    if 0.0 <= price <= 10.0 {
      FirstMatchWins(price, rates, 0, matches);
    } else if 11.0 <= price <= 20.0 {
      FirstMatchWins(price, rates, 1, matches);
    } else if 21.0 <= price <= 30.0 {
      forall k | 0 <= k < 2 ensures !matches(price, rates[k].range) { assert k == 0 || k == 1; }
      FirstMatchWins(price, rates, 2, matches);
    } else if 31.0 <= price <= 40.0 {
      forall k | 0 <= k < 3 ensures !matches(price, rates[k].range) { assert k == 0 || k == 1 || k == 2; }
      FirstMatchWins(price, rates, 3, matches);
    } else if 41.0 <= price <= 50.0 {
      forall k | 0 <= k < 4 ensures !matches(price, rates[k].range) { assert k == 0 || k == 1 || k == 2 || k == 3; }
      FirstMatchWins(price, rates, 4, matches);
    }
  }
  /**
   * The default table adds 5% up to 10 and 10%, 15%, 20%, 25% on the whole-number
   * ranges after it.
   */
  lemma DefaultTiers(price: real)
    ensures 0.0 <= price <= 10.0 ==> MatrixMarkup(price, DefaultRates) == price * 0.05
    ensures 11.0 <= price <= 20.0 ==> MatrixMarkup(price, DefaultRates) == price * 0.1
    ensures 21.0 <= price <= 30.0 ==> MatrixMarkup(price, DefaultRates) == price * 0.15
    ensures 31.0 <= price <= 40.0 ==> MatrixMarkup(price, DefaultRates) == price * 0.2
    ensures 41.0 <= price <= 50.0 ==> MatrixMarkup(price, DefaultRates) == price * 0.25
  {
    DefaultKeys(price);
    FiveTiers(price, DefaultRates, KeyMatches);
  }

  /** A price between two ranges (10.5, say), a negative price and every price above 50 get nothing. */
  lemma DefaultGaps(price: real)
    requires price < 0.0 || 10.0 < price < 11.0 || 20.0 < price < 21.0 || 30.0 < price < 31.0
          || 40.0 < price < 41.0 || price > 50.0
    ensures MatrixMarkup(price, DefaultRates) == 0.0
  {
    DefaultKeys(price);
    assert forall k | 0 <= k < |DefaultRates| :: !KeyMatches(price, DefaultRates[k].range) by {
      forall k | 0 <= k < |DefaultRates| ensures !KeyMatches(price, DefaultRates[k].range) {
        assert k == 0 || k == 1 || k == 2 || k == 3 || k == 4 || k == 5;
      }
    }
    NoMatchAddsNothing(price, DefaultRates, KeyMatches);
  }
}
