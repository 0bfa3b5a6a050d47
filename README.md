# Price markup engine

A Dafny model of the price engine of a browser extension that rewrites the
prices shown on web pages. The engine finds the text nodes that show a
currency amount and reads the amount. It adds a markup (flat, percentage, or
tiered by a matrix of price ranges) and writes the marked-up price back in the
US dollar currency format. It can also attach an indicator, and it restores
the original amounts when markup is switched off.

Modules:

- `Wrappers`: `Option`.
- `JsText`: the string built-ins the engine uses. These are the `\s` and `\d`
  classes, `trim()`, `includes`, `replace(/,/g, '')` and `split` on one
  character.
- `JsNumber`: the numeric built-ins. It covers `parseFloat`, `Number`,
  `parseInt(_, 10)`, `toFixed(2)` and
  `toLocaleString('en-US', {style: 'currency', currency: 'USD'})`, all over
  exact reals. `JsNum` is `Finite(real) | Infinite(negative) | NaN`.
- `Dom`: a page element as a class, with `var text` for its `textContent`.
  `className` (and whether it is a string), `title`, its parent and its
  descendants (in document order)
  are fixed. A text node together with its parent element is a value.
- `PriceText`: the three regular expressions of the content script, each as
  a hand-written recogniser:
  - `isPriceNode` (detection);
  - `extractPrice` (extraction);
  - the amount pattern that `restoreOriginalPrices` replaces.

  Detection and the restore search are each proved equal to a declarative
  statement of where their regex matches. Extraction is proved to start at
  the leftmost match and to read the amount as its comma-free integer part
  plus its cents (`AmountValue`). The greedy extent of an amount
  (`AmountEnd`) is computed; it has no separate declarative definition.
- `Markup`: `calculateMarkup` and `calculateMatrixMarkup`, the settings and
  their default values.
- `MarkupManager`: the `PriceMarkupManager` class. Its fields are the
  tracked elements, the stored original prices, the indicators, the pending
  debounce timer and the `isProcessing` flag. Its methods are the tree
  walker, the update pass, restore, the settings message and the mutation
  observer with its timer. What each pass keeps is stated per element
  (`ElementUpdated`), and lemmas relate several passes.
- `AmazonPrice`, `AliExpressPrice`, `SnapOnPrice`: the site adapters, i.e.
  the element test, extraction, update and finding the elements of a page.
  Each update method is proved to write what its extraction reads back as the
  new price rounded to cents, under conditions that differ per site. Amazon:
  both parts present and distinct, and a price not negative. AliExpress:
  spans 1 and 3 distinct, any price. Snap-on: a price not negative; a
  negative one makes the element fail its own test.
- `Helpers`: `isPriceNode` with an optional prefix, `containsCurrency`
  (`\b` and case-insensitive), and the depth-first `getPriceFromChildNodes`
  over a node tree.
- `SnapOnEpc`: the tree-walker filter for the Snap-on parts catalogue.

Notes on the code's behaviour:

- Generic extraction reads the element's whole `textContent`, not only its
  direct text children.
- AliExpress extraction is `parseFloat` of `whole + "." + decimal`. It does
  not combine two integer parts.
- Extraction requires a currency sign in front of the amount.
- The original price is captured by the first update pass that finds one,
  not when the walker first tracks the element.
- An element's `textContent` after an update is the marked-up price followed
  by the text of the indicator appended to it: the coin and the tooltip's
  lines. Restoring rewrites `textContent` from that whole text, so the
  indicator's text stays behind as plain text after the restored price.

The page address, the page's text nodes and elements in document order, and
the timer handles are parameters. Storage and messaging become calls of
`ApplySettings`.

## Model

| member | source | states |
|---|---|---|
| PriceText.IsPriceNodeIsRegexTest | src/content.tsx:119-124 | The recogniser accepts a text exactly when the detection regex matches in it somewhere. |
| PriceText.IsPriceNodeSigns | src/content.tsx:119-124 | A text is a price node iff some `$ € £ ¥` sign in it opens a price: a digit follows after optional whitespace, and the sign is preceded by whitespace, or is a `$` at the very start, or is a `$` followed by whitespace. |
| PriceText.ScanForPriceSpec | src/content.tsx:122-123 | Scanning from `j` finds a sign that opens a price iff one exists at or after `j`. |
| PriceText.EuroAtStartRejected | src/content.tsx:122 | `"€5"` is not a price node: only `$` may open a price at the very start. |
| PriceText.DollarAfterWordRejected | src/content.tsx:122 | `"abc$5"` is not a price node: a `$` glued to a word does not open a price. |
| PriceText.DollarAfterSpaceAccepted | src/content.tsx:122 | `"abc $5"` is a price node. |
| PriceText.FindAmount | src/content.tsx:128-129 | The search returns the leftmost position where the extraction regex can start, and returns none when there is no such position. |
| PriceText.ExtractPriceMatches | src/content.tsx:126-132 | `ExtractPrice` yields a price iff some sign is followed, after optional whitespace, by a digit. |
| PriceText.ExtractPriceFinite | src/content.tsx:131 | An extracted price is finite and not negative. |
| PriceText.PriceNodeHasPrice | src/content.tsx:119-132 | A text that passes detection always yields a price on extraction. |
| PriceText.AmountParses | src/content.tsx:129-131 | `parseFloat` of the comma-free captured amount is exactly `AmountValue`: the value of the integer part with its commas dropped, plus the two cents digits as hundredths when the `.dd` group matched; so it is finite and not negative. |
| PriceText.ExtractPriceValue | src/content.tsx:126-132 | When a price is extracted, it is the `AmountValue` of the amount after the leftmost sign that opens one, past the whitespace that follows the sign. |
| PriceText.ExtractGroupedExample | src/content.tsx:126-132 | `"Price: $1,234.56 each"` yields 1234.56: the leading and trailing words are skipped and the thousands comma is dropped. |
| PriceText.ExtractThirdDecimalExample | src/content.tsx:129 | `"$12.345"` yields 12.34: the cents group takes exactly two digits. |
| PriceText.ExtractCents | src/content.tsx:126-132 | Extracting from the currency format of `n` cents, followed by any text, gives `n / 100`. |
| PriceText.ExtractFormatted | src/content.tsx:126-132 | Extracting from the text an update writes, followed by any text (such as an indicator's), gives the written magnitude rounded to cents. |
| PriceText.FindRestoreMatch | src/content.tsx:271-274 | The search returns the leftmost match of the restore pattern, and returns none when there is no match. |
| PriceText.RestoreMatchesDigit | src/content.tsx:269-274 | In `RestoreText` the restore pattern matches iff the text holds a digit; a text without a digit is left unchanged. |
| PriceText.RestoreFormatted | src/content.tsx:261-275 | Restoring over a currency-formatted text followed by any suffix replaces the formatted part with the new text and keeps the suffix; a leading minus sign is kept too. |
| Markup.FlatIgnoresPrice | src/content.tsx:136-137 | `CalculateMarkup` under the flat rule adds `flatRate` whatever the price. |
| Markup.PercentageProportional | src/content.tsx:138-139 | `CalculateMarkup` under the percentage rule adds `price * percentage / 100`. |
| Markup.UnlistedAddsNothing | src/content.tsx:142-143 | `CalculateMarkup` adds 0 for a markup type outside the three. |
| Markup.FirstMatchWins | src/content.tsx:147-156 | In `MatrixMarkup` the first entry whose range matches decides the rate, whatever the entries after it say. |
| Markup.NoMatchAddsNothing | src/content.tsx:155 | With no matching entry the matrix adds 0. |
| Markup.FirstMatchBounds | src/content.tsx:147-156 | For a non-negative price and rates in `[0, cap]`, the matrix adds between 0 and `cap` percent of the price. |
| Markup.KeyMatchesDigitRange | src/content.tsx:150-151 | `KeyMatches`: a key `lo-hi` made of two digit strings matches exactly the prices in `[lo, hi]`; when `hi` is 0 it matches every price from `lo` up. |
| Markup.KeyMatchesNumberRange | src/content.tsx:150-151 | The same for a key written from two whole numbers. |
| Markup.KeyWithoutDash | src/content.tsx:150-151 | A key without `-` has no upper bound: it matches the prices at or above `Number(key)`. |
| Markup.OpenEndedKeyIsNaN | src/content.tsx:24 | `Number("51+")` is NaN. |
| Markup.NaNKeyNeverMatches | src/content.tsx:150-151 | A key without `-` whose `Number` is NaN matches no price. |
| Markup.ZeroToTen | src/content.tsx:19 | The default key `"0-10"` matches exactly the prices from 0 to 10. |
| Markup.ElevenToTwenty | src/content.tsx:20 | The default key `"11-20"` matches exactly the prices from 11 to 20. |
| Markup.TwentyOneToThirty | src/content.tsx:21 | The default key `"21-30"` matches exactly the prices from 21 to 30. |
| Markup.ThirtyOneToForty | src/content.tsx:22 | The default key `"31-40"` matches exactly the prices from 31 to 40. |
| Markup.FortyOneToFifty | src/content.tsx:23 | The default key `"41-50"` matches exactly the prices from 41 to 50. |
| Markup.FiftyOneUp | src/content.tsx:24 | The default key `"51+"` matches no price. |
| Markup.DefaultKeys | src/content.tsx:18-25 | Which default keys match a given price. |
| Markup.FiveTiers | src/content.tsx:147-156 | A six-entry table whose first five ranges are the default tiers applies 5, 10, 15, 20 and 25 percent on them. |
| Markup.DefaultTiers | src/content.tsx:18-25 | The default matrix adds 5, 10, 15, 20 and 25 percent on `[0,10]`, `[11,20]`, `[21,30]`, `[31,40]` and `[41,50]`. |
| Markup.DefaultGaps | src/content.tsx:18-25 | The default matrix adds 0 to a negative price, to a price between two ranges (such as 10.5) and to every price above 50. |
| MarkupManager.WalkExtends | src/content.tsx:107-113 | A walk (`Walk`, which asks `WalkerFilter` about each text node) only adds tracked elements; those tracked before keep their place. |
| MarkupManager.WalkDistinct | src/content.tsx:98-113 | A walk never tracks an element twice. |
| MarkupManager.WalkAddsPriceParents | src/content.tsx:98-113 | `WalkerFilter` accepts only price nodes: every element a walk adds is the parent of a walked text node whose text is a price node. |
| MarkupManager.WalkFindsEveryPrice | src/content.tsx:98-113 | After a walk, the parent of every walked text node whose text is a price node is tracked. |
| MarkupManager.CapturePrice | src/content.tsx:227-229 | A price is captured iff extraction yields a truthy number; what is captured is positive. |
| MarkupManager.IndicatorsCovered | src/content.tsx:240-254 | When every tracked element carries the indicator its stored price calls for, the indicators sit on exactly the elements with a stored price (or nowhere when indicators are hidden). |
| MarkupManager.UpdateIdempotent | src/content.tsx:223-254 | A second update pass changes nothing: the stored price, the text and the indicator stay as the first pass left them. |
| MarkupManager.RestoreAfterUpdate | src/content.tsx:223-277 | Restoring after a pass writes the stored price back in the currency format, after a `-` when the marked-up price was negative and followed by the indicator's text that the pass appended; an element with no stored price keeps its text. |
| MarkupManager.PriceMarkupManager.constructor | src/content.tsx:12-33 | The default settings, and nothing tracked, stored, attached or pending. |
| MarkupManager.PriceMarkupManager.FindPriceElements | src/content.tsx:89-117 | Unless an update is running, the tracked elements become the result of the walk; nothing else changes. |
| MarkupManager.PriceMarkupManager.UpdatePrices | src/content.tsx:213-259 | Three cases. During a pass nothing changes. When enabled, every tracked element is updated as `ElementUpdated` says and the indicators cover the stored prices. When disabled, every text is restored and the indicators are cleared. |
| MarkupManager.PriceMarkupManager.MarkUpAll | src/content.tsx:223-255 | The loop updates every tracked element as `ElementUpdated` says, and the indicators cover the stored prices. |
| MarkupManager.PriceMarkupManager.UpdateElement | src/content.tsx:158-254 | The price is stored once, from the current text. The text becomes the marked-up price followed by the new indicator's text (the coin and the tooltip lines). The indicator is replaced, or removed when indicators are hidden. No other element's price or indicator changes. |
| MarkupManager.PriceMarkupManager.StoreOriginal | src/content.tsx:224-230 | A price already stored is kept; otherwise one is captured from the text when there is one. The result says whether a price is now stored. |
| MarkupManager.PriceMarkupManager.ShowMarkedUp | src/content.tsx:158-254 | The text becomes `price + markup` in the currency format, followed by the text of the attached indicator: the coin, then the original price and the markup line of the tooltip. The indicator is replaced, or removed when indicators are hidden. |
| MarkupManager.PriceMarkupManager.RestoreOriginalPrices | src/content.tsx:261-284 | Each tracked element's first amount is replaced by its stored price; all indicators are cleared and the stored prices are kept. |
| MarkupManager.PriceMarkupManager.ApplySettings | src/content.tsx:45-58 | The new settings are adopted and the update pass runs with them, with the three cases of `UpdatePrices`. |
| MarkupManager.PriceMarkupManager.OnMutation | src/content.tsx:69-78 | Any pending update is cancelled and exactly one new one is scheduled. |
| MarkupManager.PriceMarkupManager.OnTimerFired | src/content.tsx:74-77 | The walk runs, then the update pass; no timer is left pending; every tracked element was tracked before or is the parent of a walked node. |
| MarkupManager.PriceMarkupManager.UpdateTwice | src/content.tsx:213-259 | Two update passes in a row leave what one pass leaves. |
| MarkupManager.PriceMarkupManager.MarkUpThenRestore | src/content.tsx:158-284 | Enabling and then disabling shows each element's stored price again, after a `-` when the marked-up price was negative and followed by the indicator's text when indicators were shown; every indicator is removed from the map. |
| AmazonPrice.ExtractAmazonPrice | src/utils/amazonPrice.ts:5-19 | Null exactly when the whole part or the fraction part is missing. |
| AmazonPrice.DefaultedDigits | src/utils/amazonPrice.ts:11-16 | A part whose trimmed text is digits reads as their value; a blank part reads as 0. |
| AmazonPrice.AmazonValueDigits | src/utils/amazonPrice.ts:11-18 | Parts whose trimmed texts are digits read as `whole + fraction / 100`. |
| AmazonPrice.AmazonDigitStrings | src/utils/amazonPrice.ts:11-18 | The same for parts that are digit strings as they stand. |
| AmazonPrice.AmazonCentsRoundTrip | src/utils/amazonPrice.ts:21-30 | The parts written for `n` cents read back as `n` cents. |
| AmazonPrice.AmazonRoundTrip | src/utils/amazonPrice.ts:5-31 | What an update writes for a price `x >= 0` reads back as `x` rounded to cents. |
| AmazonPrice.AmazonNegativeExample | src/utils/amazonPrice.ts:15-18 | The parts `"-12"` and `"05"` read as -11.95, not -12.05. |
| AmazonPrice.AmazonGroupedWholeExample | src/utils/amazonPrice.ts:15 | A grouped whole part `"1,234"` reads as 1: `parseInt` stops at the comma. |
| AmazonPrice.UpdateAmazonPrice | src/utils/amazonPrice.ts:21-31 | The fraction part gets the two cents digits and the whole part gets the signed units of `toFixed(2)`; nothing else changes. With both parts present and distinct, and a price not negative, extraction then gives the new price rounded to cents. |
| AmazonPrice.FindAmazonPriceElements | src/utils/amazonPrice.ts:33-42 | Exactly the `HTMLElement`s with class `a-price` (the test `IsAmazonPriceElement`), in document order. |
| AliExpressPrice.ExtractAliExpressPrice | src/utils/aliExpressPrice.ts:5-16 | Null exactly when there are fewer than four spans or `parseFloat` of `span1.span3` is NaN; otherwise that number. |
| AliExpressPrice.AliDigitStrings | src/utils/aliExpressPrice.ts:10-14 | Digit-string parts, defaulted when empty, read as `whole + 0.decimal`. |
| AliExpressPrice.AliRoundTrip | src/utils/aliExpressPrice.ts:10-29 | The parts written for any price (negative ones included) read back as that price rounded to cents. |
| AliExpressPrice.UpdateAliExpressPrice | src/utils/aliExpressPrice.ts:18-29 | With four spans or more, span 3 gets the cents and span 1 the signed units; nothing else changes. When spans 1 and 3 differ, extraction then gives the new price rounded to cents. |
| AliExpressPrice.FindAliExpressPriceElements | src/utils/aliExpressPrice.ts:31-40 | Exactly the `HTMLElement`s with class `kc_k6` (the test `IsAliExpressPriceElement`), in document order. |
| SnapOnPrice.DigitCommaRun | src/utils/snapOnPrice.ts:6 | The end of the maximal `[\d,]` run from `j`. |
| SnapOnPrice.DigitCommaRunSpan | src/utils/snapOnPrice.ts:6 | Everything that run covers is in `[\d,]`. |
| SnapOnPrice.DigitCommaRunExact | src/utils/snapOnPrice.ts:16 | Any `[\d,]` run that stops before a character outside the class is the maximal run. |
| SnapOnPrice.RegexMatchIsRun | src/utils/snapOnPrice.ts:16 | `\$([\d,]+\.\d{2})` matches at `i` iff the maximal `[\d,]` run after the `$` is non-empty and followed by `.dd`. The only possible end of a match is that run's end. |
| SnapOnPrice.FindDollarAmount | src/utils/snapOnPrice.ts:16 | The search returns a position where the regex matches. |
| SnapOnPrice.FindDollarAmountLeftmost | src/utils/snapOnPrice.ts:16 | That position is the leftmost match, and there is no match when the search returns none. |
| SnapOnPrice.FindDollarAmountIsRegex | src/utils/snapOnPrice.ts:16-17 | The search finds a match iff the regex matches somewhere. |
| SnapOnPrice.CapturedLayout | src/utils/snapOnPrice.ts:16-20 | The captured amount without commas is the digits, a `.` and two digits. |
| SnapOnPrice.CapturedValue | src/utils/snapOnPrice.ts:20-21 | `Number` of the captured amount is `digits + 0.dd`. |
| SnapOnPrice.SnapOnTextPriceFound | src/utils/snapOnPrice.ts:11-23 | A price is read iff the search finds a match; it is then finite and not negative. |
| SnapOnPrice.SnapOnTextPriceMatches | src/utils/snapOnPrice.ts:11-23 | A price is read iff the regex matches somewhere; it is then finite and not negative. |
| SnapOnPrice.ValidatedMatch | src/utils/snapOnPrice.ts:6-16 | A text in the validated format matches at its `$`, with the run ending at the `.`. |
| SnapOnPrice.ValidatedTextPrice | src/utils/snapOnPrice.ts:6-22 | A text in the validated format reads as its comma-free units plus its cents. |
| SnapOnPrice.SnapOnElementIsPriceNode | src/utils/snapOnPrice.ts:1-9 | The element test `IsSnapOnPriceElement` is the class test plus the adapter's `isPriceNode` (`SnapOnIsPriceNode`, lines 57-59) on the text; every element that passes yields a finite price from `ExtractSnapOnPrice`. |
| SnapOnPrice.LayoutRun | src/utils/snapOnPrice.ts:27-32 | In the currency format, the `[\d,]` run of the units ends at the `.` |
| SnapOnPrice.FormatCentsValidated | src/utils/snapOnPrice.ts:6-32 | The currency format of `n` cents passes the format test iff it has no sign. |
| SnapOnPrice.FormatUsdValidated | src/utils/snapOnPrice.ts:6-32 | The currency format of `x` passes the format test iff `x >= 0`. |
| SnapOnPrice.FormatCentsTrimmed | src/utils/snapOnPrice.ts:4-32 | A currency-formatted text is already trimmed. |
| SnapOnPrice.FormatCentsMatch | src/utils/snapOnPrice.ts:16-32 | In the currency format the match is at the `$` and captures the grouped units and the cents. |
| SnapOnPrice.CapturedCents | src/utils/snapOnPrice.ts:16-22 | When the capture, without commas, is the units and cents of `n`, the text reads as `n / 100`. |
| SnapOnPrice.ExtractFormatCents | src/utils/snapOnPrice.ts:11-32 | The currency format of `n` cents reads back as `n / 100`. |
| SnapOnPrice.ExtractFormatUsd | src/utils/snapOnPrice.ts:11-32 | The currency format of `x` reads back as its magnitude rounded to cents. |
| SnapOnPrice.WrittenTextValidated | src/utils/snapOnPrice.ts:1-36 | The text an update writes passes the element's text test iff the price is not negative. |
| SnapOnPrice.WrittenTextValue | src/utils/snapOnPrice.ts:1-36 | The text an update writes for a price that is not negative reads back as the price rounded to cents. |
| SnapOnPrice.UpdateSnapOnPrice | src/utils/snapOnPrice.ts:25-38 | Only an element that passes the test is rewritten, to the currency format. A price not negative leaves it passing and reading as that price rounded to cents. A negative price makes it fail the test. |
| SnapOnPrice.SnapOnCandidates | src/utils/snapOnPrice.ts:47-51 | The filter keeps exactly the `HTMLElement`s that pass the element test. |
| SnapOnPrice.SnapOnCandidatesAppend | src/utils/snapOnPrice.ts:47-51 | Filtering a concatenation filters each part. |
| SnapOnPrice.FindSnapOnPriceElements | src/utils/snapOnPrice.ts:40-54 | Exactly the `ng-star-inserted` `HTMLElement`s that pass the element test, in document order. |
| Helpers.IsPriceNodeDigit | src/utils/helpers.ts:1-5 | With the prefix group optional and the pattern unanchored, a text passes iff it contains a digit. |
| Helpers.UpperAscii | src/utils/helpers.ts:8 | A lower-case ASCII letter becomes upper case; every other character is kept. |
| Helpers.Upper | src/utils/helpers.ts:8 | Upper-casing keeps the length. |
| Helpers.UpperAsciiKeeps | src/utils/helpers.ts:8 | Upper-casing keeps the word characters and is idempotent. |
| Helpers.BoundaryUpper | src/utils/helpers.ts:8 | Upper-casing keeps every `\b`. |
| Helpers.CanonicalUpper | src/utils/helpers.ts:8 | Upper-casing keeps the case-folded form of every three characters. |
| Helpers.CurrencyAtUpper | src/utils/helpers.ts:8 | A code matches at the same places in a text and in its upper-case form. |
| Helpers.ContainsCurrencyUpper | src/utils/helpers.ts:7-10 | `containsCurrency` ignores case. |
| Helpers.CodeAsWord | src/utils/helpers.ts:7-10 | One of the nine codes, in any case, standing as a word of its own, is found. |
| Helpers.ContainsCurrencyExample | src/utils/helpers.ts:8 | `"12.50 usd"` contains a currency. |
| Helpers.NotContainsCurrencyExample | src/utils/helpers.ts:8 | `"USDT"` does not: the code runs on into a word character. |
| Helpers.Traverse | src/utils/helpers.ts:13-26 | What the search returns is non-empty, trimmed and passes `isPriceNode`. |
| Helpers.FirstHit | src/utils/helpers.ts:20-23 | The same for the loop over the children. |
| Helpers.GetPriceFromChildNodes | src/utils/helpers.ts:12-29 | The same for the whole search from an element. |
| Helpers.FirstPriceText | src/utils/helpers.ts:13-26 | A reference definition: the trim of the first text in document order that is non-empty and passes `isPriceNode` after trimming, and none iff there is no such text. |
| Helpers.FirstPriceTextAppend | src/utils/helpers.ts:20-23 | The first price text of a concatenation is that of the first part, or else that of the second. |
| Helpers.TraverseFirstPriceText | src/utils/helpers.ts:13-26 | The depth-first search returns the trimmed first price text in document order. |
| Helpers.FirstHitFirstPriceText | src/utils/helpers.ts:19-24 | The loop over the children returns the first price text among all their texts. |
| Helpers.GetPriceNone | src/utils/helpers.ts:12-29 | Nothing is found iff no text node below the element holds a digit after trimming. |
| SnapOnEpc.SnapOnEpcUseCase | src/utils/snapOnEpc.ts:5-7 | Off the catalogue site every node is skipped. |
| SnapOnEpc.SnapOnEpcReject | src/utils/snapOnEpc.ts:5-11 | A node is rejected iff the page is on the catalogue and the node has no parent element. |
| SnapOnEpc.SnapOnEpcAccept | src/utils/snapOnEpc.ts:3-28 | A node is accepted iff the page is on the catalogue, it has a parent, and either the parent's title names a currency or the grandparent's `className` is the string `ng-star-inserted` exactly and the trimmed text holds a digit. |
| SnapOnEpc.SnapOnEpcTitleFirst | src/utils/snapOnEpc.ts:14-17 | A title naming a currency accepts the node whatever its text. |
| SnapOnEpc.SnapOnEpcClassExample | src/utils/snapOnEpc.ts:19-20 | The grandparent's class is compared as a whole: `"price ng-star-inserted"` does not count, and the node is skipped. |
| SnapOnEpc.SnapOnEpcSvgGrandparent | src/utils/snapOnEpc.ts:19-20 | An SVG grandparent, whose `className` is not a string, never equals `ng-star-inserted`: without a currency title the node is skipped. |
| JsNumber.CentsMagnitudeNearest | src/utils/amazonPrice.ts:23 | Rounding to cents gives the nearest whole number of cents to the magnitude. |
| JsNumber.FixedCentsSplit | src/utils/amazonPrice.ts:23-24 | `toFixed(2).split('.')` is exactly the signed units and the two cents digits. |
| JsNumber.ParseFloatToFixed2 | src/utils/aliExpressPrice.ts:14-19 | `parseFloat(x.toFixed(2))` (`ParseFloat` of `ToFixed2`) is `x` rounded to cents. |
| JsNumber.ParseFloatDigits | src/content.tsx:131 | `parseFloat` (`ParseFloat`) of a non-empty digit string is its value. |
| JsNumber.ParseFloatDecimal | src/utils/aliExpressPrice.ts:14 | `parseFloat` of digits, `.`, digits, optionally after a `-`, is the signed value of the integer digits plus the fraction digits. |
| JsNumber.ParseFloatFixedCents | src/utils/aliExpressPrice.ts:14-19 | `parseFloat` of the two-decimal form of `n` cents is `n / 100`, signed. |
| JsNumber.ToNumberDigits | src/utils/snapOnPrice.ts:21 | `Number` (`ToNumber`) of a non-empty digit string is its value. |
| JsNumber.ToNumberDecimal | src/utils/snapOnPrice.ts:21 | `Number` of digits, `.`, digits (either side empty, not both) is its decimal value. |
| JsNumber.ParseInt10Digits | src/utils/amazonPrice.ts:15-16 | `parseInt(d, 10)` (`ParseInt10`) of a non-empty digit string is its value. |
| JsNumber.ParseInt10Prefix | src/utils/amazonPrice.ts:15-16 | `parseInt` reads the leading digit run and ignores what follows a non-digit. |
| JsNumber.ParseInt10Negative | src/utils/amazonPrice.ts:15 | `parseInt` of `-` and a digit string is the negated value. |
| JsNumber.ParseFloatToFixed1 | src/content.tsx:183-187 | `toFixed(1)` of any `x` reads back as `x` to the nearest tenth, ties away from zero. |
| JsNumber.ParseFloatNumberText | src/content.tsx:178 | `String(x)` of a number `x >= 0` with at most 20 decimal places (`x` times 10^20 is whole) reads back as `x`. |
| JsNumber.FormatCentsLayout | src/content.tsx:235-238 | The currency format of `n` cents, as `FormatUsd` writes it, is an optional `-`, `$`, the units grouped by commas, `.` and two cents digits. |
| JsNumber.GroupedDigits | src/utils/snapOnPrice.ts:20-32 | Dropping the grouping commas of the formatted units gives back the digits of the units. |

## Left out

- Floating point: prices are exact reals. Rounding in `*`, `/` and `+` is not
  modelled, nor overflow to Infinity, nor `toFixed` for magnitudes of `1e21`
  or more. Rounding to cents rounds half away from zero.
- NaN and Infinity prices are never stored or written: capture requires a
  truthy finite number, and the update methods take a real.
- `Object.entries` order: `matrixRates` is a sequence of entries in
  enumeration order. The reordering of integer-like keys is not modelled.
- `createIndicator` (src/content.tsx:158-211): an indicator is a value that
  records the price and the markup, and its `textContent` is a string
  (`IndicatorText`) that is appended to its element's text. Its DOM nodes,
  its classes and its styles are not modelled. The tooltip's HTML is
  modelled by the text it yields, with the template's line breaks and
  indentation.
- NumberText (`String(x)` of the percentage in the tooltip): written as plain
  decimals with at most 20 of them. The exponent forms and the shortest
  round-trip digits of JavaScript are not modelled. The read-back lemma is
  stated only for `x >= 0` with at most 20 decimals.
- ToFixed1 (`toFixed(1)` of the matrix percentage): the exponent form for
  magnitudes of `1e21` or more is not modelled.
- `textContent` is a field of each element. Writing it does not recompute
  the ancestors' text, and does not remove the descendants.
- Storage, messaging, the mutation observer, timers and `window.location`
  are parameters. Loading settings and the settings message are calls of
  `ApplySettings`. A fired timer is a call of `OnTimerFired` with that
  timer's handle. `async` ordering and concurrency are not modelled.
- `snapOnEpcUseCase` takes the node as its parent element plus its
  `textContent`. Whether an element's `className` is a string (it is not on
  an SVG element) is a flag of the element. The node tree of `getPriceFromChildNodes` is a datatype of
  text nodes, elements and other nodes.
- AmazonPrice.UpdateAmazonPrice: the round trip is stated only when both
  parts are present, distinct and the price is not negative. A negative
  price reads back wrongly, as `AmazonNegativeExample` shows.
- AliExpressPrice.UpdateAliExpressPrice: the round trip is stated only when
  spans 1 and 3 are different elements.
- SnapOnPrice.UpdateSnapOnPrice: a negative price is written as `-$…`, which
  then fails the element test. The contract states that outcome, not a round
  trip.
- `Unlisted` models every markup type string other than `flat`,
  `percentage` and `matrix`, such as the popup's own names. The popup, the
  background script and the build scripts are not part of this model.
- Amazon's grouped-comma behaviour is an example lemma
  (`AmazonGroupedWholeExample`), not a general statement.
