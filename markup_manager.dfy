/**
 * `PriceMarkupManager`, the content script's engine: it tracks the elements
 * whose text holds a price, captures each one's original price once, rewrites
 * the text with the marked-up price and puts it back when markup is switched off.
 */
module MarkupManager {
  import opened Wrappers
  import opened JsNumber
  import opened Dom
  import opened PriceText
  import opened Markup

  /** The badge `createIndicator` attaches: the original price and the markup its tooltip shows. */
  datatype Indicator = Indicator(original: real, markup: real)

  // ---------------------------------------------------------------------------
  // The tree walk of `findPriceElements`.

  /** The `acceptNode` callback, given the elements tracked so far. */
  function WalkerFilter(tracked: seq<Element>, node: TextNode): FilterResult {
    if node.parent == null then Reject
    else if node.parent in tracked then Reject
    else if IsPriceNode(node.data) then Accept
    else Skip
  }

  /** The tracked elements after the walker hands over `node`: its parent joins when it is accepted. */
  function Visit(tracked: seq<Element>, node: TextNode): seq<Element> {
    if WalkerFilter(tracked, node) == Accept && node.parent != null then tracked + [node.parent]
    else tracked
  }

  /** The tracked elements after a walk over the text nodes `nodes`, in document order. */
  function Walk(tracked: seq<Element>, nodes: seq<TextNode>): seq<Element>
    decreases |nodes|
  {
    if nodes == [] then tracked else Walk(Visit(tracked, nodes[0]), nodes[1..])
  }

  /** A walk only adds: what was tracked stays, in its place. */
  lemma {:induction false} WalkExtends(tracked: seq<Element>, nodes: seq<TextNode>)
    ensures |tracked| <= |Walk(tracked, nodes)| && Walk(tracked, nodes)[..|tracked|] == tracked
    decreases |nodes|
  {
    if nodes != [] {
      var next := Visit(tracked, nodes[0]);
      WalkExtends(next, nodes[1..]);
      assert next[..|tracked|] == tracked;
    }
  }

  /** A walk never tracks an element twice. */
  lemma {:induction false} WalkDistinct(tracked: seq<Element>, nodes: seq<TextNode>)
    requires Distinct(tracked)
    ensures Distinct(Walk(tracked, nodes))
    decreases |nodes|
  {
    if nodes != [] {
      if WalkerFilter(tracked, nodes[0]) == Accept && nodes[0].parent != null {
        DistinctAppend(tracked, nodes[0].parent);
      }
      WalkDistinct(Visit(tracked, nodes[0]), nodes[1..]);
    }
  }

  /** Every element a walk adds is the parent of a text node in it whose text passes `isPriceNode`. */
  lemma {:induction false} WalkAddsPriceParents(tracked: seq<Element>, nodes: seq<TextNode>, e: Element)
    requires e in Walk(tracked, nodes) && e !in tracked
    ensures exists n | n in nodes :: n.parent == e && IsPriceNode(n.data)
    decreases |nodes|
  {
    var next := Visit(tracked, nodes[0]);
    if e in next {
      assert nodes[0].parent == e && IsPriceNode(nodes[0].data);
    } else {
      WalkAddsPriceParents(next, nodes[1..], e);
      var n :| n in nodes[1..] && n.parent == e && IsPriceNode(n.data);
      assert n in nodes;
    }
  }

  /** After a walk, the parent of every text node in it whose text passes `isPriceNode` is tracked. */
  lemma {:induction false} WalkFindsEveryPrice(tracked: seq<Element>, nodes: seq<TextNode>, n: TextNode)
    requires n in nodes && n.parent != null && IsPriceNode(n.data)
    ensures n.parent in Walk(tracked, nodes)
    decreases |nodes|
  {
    var next := Visit(tracked, nodes[0]);
    if n == nodes[0] {
      assert n.parent in next;
      WalkExtends(next, nodes[1..]);
      assert n.parent in Walk(next, nodes[1..])[..|next|];
    } else {
      assert n in nodes[1..];
      WalkFindsEveryPrice(next, nodes[1..], n);
    }
  }

  // ---------------------------------------------------------------------------
  // What an update computes for one element.

  /**
   * The price `updatePrices` captures from an element's text: `extractPrice`, where
   * no match, 0 and NaN (`if (!price) continue`) capture nothing.
   */
  function CapturePrice(text: string): (r: Option<real>)
    ensures r.Some? ==> r.value > 0.0
    ensures r.Some? <==> ExtractPrice(text).Some? && Truthy(ExtractPrice(text).value)
  {
    match ExtractPrice(text)
    case None => None
    case Some(n) =>
      ExtractPriceFinite(text);
      if n.Finite? && n.value != 0.0 then Some(n.value) else None
  }

  /** The stored price of `e`, if any. */
  function Stored(prices: map<Element, real>, e: Element): Option<real> {
    if e in prices then Some(prices[e]) else None
  }

  /** The indicator attached to `e`, if any. */
  function Attached(indicators: map<Element, Indicator>, e: Element): Option<Indicator> {
    if e in indicators then Some(indicators[e]) else None
  }

  /** The text an update writes for a stored price: `price + markup` in the currency format. */
  function MarkedUpText(s: Settings, price: real): string {
    FormatUsd(price + CalculateMarkup(s, price))
  }

  /** The indicator an update attaches for a stored price: the price and its markup. */
  function Badge(s: Settings, price: real): Indicator {
    Indicator(price, CalculateMarkup(s, price))
  }

  /** `((markup / original) * 100).toFixed(1)`; a zero original price divides to NaN or an infinity. */
  function MatrixPercentText(ind: Indicator): string {
    if ind.original != 0.0 then ToFixed1(ind.markup / ind.original * 100.0)
    else if ind.markup == 0.0 then "NaN"
    else if ind.markup > 0.0 then "Infinity"
    else "-Infinity"
  }

  /** The text of the tooltip's `Markup:` line for the markup type in force. */
  function MarkupLine(s: Settings, ind: Indicator): string {
    match s.markupType
    case Flat => "Markup: +$" + ToFixed2(ind.markup)
    case Percentage => "Markup: " + NumberText(s.percentage) + "% (+$" + ToFixed2(ind.markup) + ")"
    case Matrix => "Markup: " + MatrixPercentText(ind) + "% (+$" + ToFixed2(ind.markup) + ")"
    case Unlisted => ""
  }

  /** The indicator's coin, followed in its `textContent` by the tooltip's text. */
  const Coin := "\U{1F4B0}"
  /** The tooltip template's text up to the original price, with its line breaks and indentation. */
  const TooltipOpen := "\n          \n            Original: $"
  /** The break and indentation between the tooltip's two lines. */
  const LineBreak := "\n            "
  /** The template's text after the `Markup:` line. */
  const TooltipClose := "\n          \n        "

  /**
   * The `textContent` of the indicator `createIndicator` builds: the coin, then
   * the text of the tooltip, whose markup keeps the template's line breaks and
   * indentation; for an unlisted markup type the tooltip is empty.
   */
  function IndicatorText(s: Settings, ind: Indicator): string {
    if s.markupType == Unlisted then Coin
    else Coin + TooltipOpen + ToFixed2(ind.original) + LineBreak + MarkupLine(s, ind) + TooltipClose
  }

  /** The text an attached indicator adds to its element's `textContent`; none without one. */
  function BadgeText(s: Settings, badge: Option<Indicator>): string {
    if badge.Some? then IndicatorText(s, badge.value) else ""
  }

  /** An element with stored price `now` carries `badge`: the indicator of that price when indicators are shown, none otherwise. */
  predicate BadgeFor(s: Settings, now: Option<real>, badge: Option<Indicator>) {
    badge == if s.showIndicator && now.Some? then Some(Badge(s, now.value)) else None
  }

  /**
   * What one pass of the update loop leaves for an element that showed `before`
   * and had `was` stored beforehand: the stored price `now` is the one kept, or
   * else the one captured from `before`; the text is rewritten from `now`, followed
   * by the text of the indicator appended to the element (left as it was when
   * nothing is stored); and the indicator `badge` is as `BadgeFor` says.
   */
  predicate ElementUpdated(s: Settings, now: Option<real>, badge: Option<Indicator>,
                           text: string, before: string, was: Option<real>)
  {
    && now == (if was.Some? then was else CapturePrice(before))
    && text == (if now.Some? then MarkedUpText(s, now.value) + BadgeText(s, badge) else before)
    && BadgeFor(s, now, badge)
  }

  /** The indicators sit on exactly the elements with a stored price when shown, and nowhere otherwise. */
  predicate IndicatorsCover(s: Settings, prices: map<Element, real>, indicators: map<Element, Indicator>) {
    if s.showIndicator then indicators.Keys == prices.Keys else indicators == map[]
  }

  /** The text `restoreOriginalPrices` leaves: the first amount replaced by the stored price, if both exist. */
  function Restored(text: string, stored: Option<real>): string {
    if stored.Some? && text != [] then RestoreText(text, FormatUsd(stored.value)) else text
  }

  /** When every tracked element carries the indicator `BadgeFor` says, the indicators cover the stored prices. */
  lemma IndicatorsCovered(s: Settings, prices: map<Element, real>, indicators: map<Element, Indicator>, es: seq<Element>)
    requires forall e | e in prices :: e in es
    requires forall e | e in indicators :: e in prices
    requires forall e | e in es :: BadgeFor(s, Stored(prices, e), Attached(indicators, e))
    ensures IndicatorsCover(s, prices, indicators)
  {
    if s.showIndicator {
      forall e | e in prices ensures e in indicators {
        assert BadgeFor(s, Stored(prices, e), Attached(indicators, e));
      }
    }
  }

  /**
   * A second pass leaves what the first left: once the first pass has stored a
   * price, the second works from it; when the first captured nothing, neither does the second.
   */
  lemma UpdateIdempotent(s: Settings, n1: Option<real>, b1: Option<Indicator>, n2: Option<real>, b2: Option<Indicator>,
                         t0: string, t1: string, t2: string, was: Option<real>)
    requires ElementUpdated(s, n1, b1, t1, t0, was)
    requires ElementUpdated(s, n2, b2, t2, t1, n1)
    ensures ElementUpdated(s, n2, b2, t2, t0, was) && n2 == n1 && b2 == b1 && t2 == t1
  {
  }

  /**
   * Switching markup off after an update puts the stored price back: the
   * marked-up amount is replaced by the stored price, after a `-` when the
   * marked-up price was negative. Replacing the text removes the indicator
   * element, but the indicator's text stays behind it.
   */
  lemma RestoreAfterUpdate(s: Settings, now: Option<real>, badge: Option<Indicator>,
                           text: string, before: string, was: Option<real>)
    requires ElementUpdated(s, now, badge, text, before, was)
    ensures Restored(text, now)
            == if now.Some? then
                 var p := now.value;
                 (if p + CalculateMarkup(s, p) < 0.0 then "-" else "") + FormatUsd(p) + BadgeText(s, badge)
               else before
  {
    if now.Some? {
      var p := now.value;
      RestoreFormatted(p + CalculateMarkup(s, p), BadgeText(s, badge), FormatUsd(p));
    }
  }

  class PriceMarkupManager {
    var settings: Settings
    /** The tracked elements (`priceElements`, a `Set`), in insertion order. */
    var priceElements: seq<Element>
    var originalPrices: map<Element, real>
    var indicatorElements: map<Element, Indicator>
    /** The handle of the last timer scheduled, if any. */
    var updateTimeout: Option<int>
    var isProcessing: bool
    /** The timers the event loop still holds. */
    ghost var pendingTimers: set<int>

    /**
     * The invariant every method keeps: the tracked elements are distinct, every
     * stored price belongs to a tracked element and is positive, every indicator
     * belongs to an element with a stored price, and at most one timer is pending,
     * the one `updateTimeout` names.
     */
    ghost predicate Valid()
      reads this
    {
      && Distinct(priceElements)
      && (forall e | e in originalPrices :: e in priceElements && originalPrices[e] > 0.0)
      && (forall e | e in indicatorElements :: e in originalPrices)
      && (updateTimeout.Some? ==> updateTimeout.value > 0)
      && (pendingTimers == {} || (updateTimeout.Some? && pendingTimers == {updateTimeout.value}))
    }

    constructor ()
      ensures Valid()
      ensures settings == DefaultSettings && priceElements == []
      ensures originalPrices == map[] && indicatorElements == map[]
      ensures updateTimeout == None && !isProcessing && pendingTimers == {}
    {
      settings := DefaultSettings;
      priceElements := [];
      originalPrices := map[];
      indicatorElements := map[];
      updateTimeout := None;
      isProcessing := false;
      pendingTimers := {};
    }

    /** `findPriceElements` over the text nodes of the page, in document order. */
    method FindPriceElements(walk: seq<TextNode>)
      requires Valid()
      modifies this
      ensures Valid()
      ensures priceElements == if old(isProcessing) then old(priceElements) else Walk(old(priceElements), walk)
      ensures isProcessing == old(isProcessing) && settings == old(settings)
      ensures originalPrices == old(originalPrices) && indicatorElements == old(indicatorElements)
      ensures updateTimeout == old(updateTimeout) && pendingTimers == old(pendingTimers)
    {
      if isProcessing {
        return;
      }
      isProcessing := true;
      var i := 0;
      while i < |walk|
        invariant 0 <= i <= |walk|
        invariant Walk(priceElements, walk[i..]) == Walk(old(priceElements), walk)
        invariant Valid()
        invariant settings == old(settings) && isProcessing
        invariant originalPrices == old(originalPrices) && indicatorElements == old(indicatorElements)
        invariant updateTimeout == old(updateTimeout) && pendingTimers == old(pendingTimers)
      {
        var node := walk[i];
        if WalkerFilter(priceElements, node) == Accept && node.parent != null {
          DistinctAppend(priceElements, node.parent);
          priceElements := priceElements + [node.parent];
        }
        assert walk[i..][1..] == walk[i + 1..];
        i := i + 1;
      }
      isProcessing := false;
    }

    /** `updatePrices`: nothing while a pass is running; otherwise mark every tracked element up, or restore them all when disabled. */
    method UpdatePrices()
      requires Valid()
      modifies this, priceElements
      ensures Valid()
      ensures priceElements == old(priceElements) && settings == old(settings)
      ensures isProcessing == old(isProcessing)
      ensures updateTimeout == old(updateTimeout) && pendingTimers == old(pendingTimers)
      ensures old(isProcessing) ==>
                && originalPrices == old(originalPrices)
                && indicatorElements == old(indicatorElements)
                && (forall e | e in priceElements :: e.text == old(e.text))
      ensures !old(isProcessing) && settings.enabled ==>
                && IndicatorsCover(settings, originalPrices, indicatorElements)
                && forall e | e in priceElements ::
                     ElementUpdated(settings, Stored(originalPrices, e), Attached(indicatorElements, e),
                                    e.text, old(e.text), Stored(old(originalPrices), e))
      ensures !old(isProcessing) && !settings.enabled ==>
                && originalPrices == old(originalPrices)
                && indicatorElements == map[]
                && forall e | e in priceElements :: e.text == Restored(old(e.text), Stored(originalPrices, e))
    {
      if isProcessing {
        return;
      }
      isProcessing := true;
      if settings.enabled {
        MarkUpAll();
      } else {
        RestoreOriginalPrices();
      }
      isProcessing := false;
    }

    /** The loop of `updatePrices` when markup is enabled: one pass over every tracked element. */
    method MarkUpAll()
      requires Valid()
      modifies this, priceElements
      ensures Valid()
      ensures priceElements == old(priceElements) && settings == old(settings)
      ensures isProcessing == old(isProcessing)
      ensures updateTimeout == old(updateTimeout) && pendingTimers == old(pendingTimers)
      ensures IndicatorsCover(settings, originalPrices, indicatorElements)
      ensures forall e | e in priceElements ::
                ElementUpdated(settings, Stored(originalPrices, e), Attached(indicatorElements, e),
                               e.text, old(e.text), Stored(old(originalPrices), e))
    {
      var i := 0;
      while i < |priceElements|
        invariant 0 <= i <= |priceElements|
        invariant Valid()
        invariant priceElements == old(priceElements) && settings == old(settings)
        invariant isProcessing == old(isProcessing)
        invariant updateTimeout == old(updateTimeout) && pendingTimers == old(pendingTimers)
        invariant forall k | 0 <= k < i ::
          ElementUpdated(settings, Stored(originalPrices, priceElements[k]), Attached(indicatorElements, priceElements[k]),
                         priceElements[k].text, old(priceElements[k].text), Stored(old(originalPrices), priceElements[k]))
        invariant forall k | i <= k < |priceElements| ::
          && Stored(originalPrices, priceElements[k]) == Stored(old(originalPrices), priceElements[k])
          && Attached(indicatorElements, priceElements[k]) == Attached(old(indicatorElements), priceElements[k])
          && priceElements[k].text == old(priceElements[k].text)
      {
        var e := priceElements[i];
        DistinctAt(priceElements, i);
        UpdateElement(e);
        i := i + 1;
      }
      IndicatorsCovered(settings, originalPrices, indicatorElements, priceElements);
    }

    /** One pass of the update loop, on the tracked element `e`; no other element's price or indicator changes. */
    method UpdateElement(e: Element)
      requires Valid() && e in priceElements
      modifies this, e
      ensures Valid()
      ensures priceElements == old(priceElements) && settings == old(settings)
      ensures isProcessing == old(isProcessing)
      ensures updateTimeout == old(updateTimeout) && pendingTimers == old(pendingTimers)
      ensures var captured := CapturePrice(old(e.text));
              originalPrices
              == if e in old(originalPrices) || captured.None? then old(originalPrices)
                 else old(originalPrices)[e := captured.value]
      ensures indicatorElements
              == if e !in originalPrices then old(indicatorElements)
                 else if settings.showIndicator then old(indicatorElements)[e := Badge(settings, originalPrices[e])]
                 else old(indicatorElements) - {e}
      ensures ElementUpdated(settings, Stored(originalPrices, e), Attached(indicatorElements, e),
                             e.text, old(e.text), Stored(old(originalPrices), e))
      ensures forall x | x != e :: Stored(originalPrices, x) == Stored(old(originalPrices), x)
      ensures forall x | x != e :: Attached(indicatorElements, x) == Attached(old(indicatorElements), x)
    {
      var stored := StoreOriginal(e);
      if stored {
        ShowMarkedUp(e);
      }
    }

    /**
     * The first half of a pass: unless a price is stored for `e`, the one captured
     * from its text is stored; the answer is whether a price is stored now.
     */
    method StoreOriginal(e: Element) returns (stored: bool)
      modifies this
      ensures priceElements == old(priceElements) && settings == old(settings) && indicatorElements == old(indicatorElements)
      ensures isProcessing == old(isProcessing)
      ensures updateTimeout == old(updateTimeout) && pendingTimers == old(pendingTimers)
      ensures var captured := CapturePrice(e.text);
              originalPrices
              == if e in old(originalPrices) || captured.None? then old(originalPrices)
                 else old(originalPrices)[e := captured.value]
      ensures stored <==> e in originalPrices
    {
      if e !in originalPrices {
        // `originalPrices.get(element)` is falsy exactly when nothing is stored: stored prices are positive.
        var captured := CapturePrice(e.text);
        if captured.None? {
          return false;
        }
        originalPrices := originalPrices[e := captured.value];
      }
      return true;
    }

    /** The second half of a pass: `e` shows its stored price marked up, with a fresh indicator when they are shown. */
    method ShowMarkedUp(e: Element)
      requires e in originalPrices
      modifies this, e
      ensures priceElements == old(priceElements) && settings == old(settings) && originalPrices == old(originalPrices)
      ensures isProcessing == old(isProcessing)
      ensures updateTimeout == old(updateTimeout) && pendingTimers == old(pendingTimers)
      ensures e.text == MarkedUpText(settings, originalPrices[e]) + BadgeText(settings, Attached(indicatorElements, e))
      ensures indicatorElements
              == if settings.showIndicator then old(indicatorElements)[e := Badge(settings, originalPrices[e])]
                 else old(indicatorElements) - {e}
    {
      var price := originalPrices[e];
      // Any old indicator is removed; `createIndicator` builds the new one and `appendChild` puts its text after the price.
      var attached: Option<Indicator> := if settings.showIndicator then Some(Badge(settings, price)) else None;
      indicatorElements := if attached.Some? then indicatorElements[e := attached.value] else indicatorElements - {e};
      e.text := MarkedUpText(settings, price) + BadgeText(settings, attached);
    }

    /** `restoreOriginalPrices`. */
    method RestoreOriginalPrices()
      requires Valid()
      modifies this, priceElements
      ensures Valid()
      ensures priceElements == old(priceElements) && settings == old(settings)
      ensures isProcessing == old(isProcessing)
      ensures updateTimeout == old(updateTimeout) && pendingTimers == old(pendingTimers)
      ensures originalPrices == old(originalPrices) && indicatorElements == map[]
      ensures forall e | e in priceElements :: e.text == Restored(old(e.text), Stored(originalPrices, e))
    {
      var i := 0;
      while i < |priceElements|
        invariant 0 <= i <= |priceElements|
        invariant priceElements == old(priceElements) && settings == old(settings)
        invariant originalPrices == old(originalPrices) && indicatorElements == old(indicatorElements)
        invariant isProcessing == old(isProcessing)
        invariant updateTimeout == old(updateTimeout) && pendingTimers == old(pendingTimers)
        invariant forall k | 0 <= k < i ::
          priceElements[k].text == Restored(old(priceElements[k].text), Stored(originalPrices, priceElements[k]))
        invariant forall k | i <= k < |priceElements| :: priceElements[k].text == old(priceElements[k].text)
      {
        var e := priceElements[i];
        DistinctAt(priceElements, i);
        if e in originalPrices {
          var formatted := FormatUsd(originalPrices[e]);
          var text := e.text;
          if text != [] {
            e.text := RestoreText(text, formatted);
          }
        }
        i := i + 1;
      }
      indicatorElements := map[];
    }

    /** A settings message (or the stored settings at start-up): adopt `s` and update. */
    method ApplySettings(s: Settings)
      requires Valid()
      modifies this, priceElements
      ensures Valid()
      ensures settings == s && priceElements == old(priceElements)
      ensures isProcessing == old(isProcessing)
      ensures updateTimeout == old(updateTimeout) && pendingTimers == old(pendingTimers)
      ensures old(isProcessing) ==>
                && originalPrices == old(originalPrices)
                && indicatorElements == old(indicatorElements)
                && (forall e | e in priceElements :: e.text == old(e.text))
      ensures !old(isProcessing) && s.enabled ==>
                && IndicatorsCover(s, originalPrices, indicatorElements)
                && forall e | e in priceElements ::
                     ElementUpdated(s, Stored(originalPrices, e), Attached(indicatorElements, e),
                                    e.text, old(e.text), Stored(old(originalPrices), e))
      ensures !old(isProcessing) && !s.enabled ==>
                && originalPrices == old(originalPrices)
                && indicatorElements == map[]
                && forall e | e in priceElements :: e.text == Restored(old(e.text), Stored(originalPrices, e))
    {
      settings := s;
      UpdatePrices();
    }

    /** The observer callback: the pending update, if any, is cancelled and a new one scheduled as `h`. */
    method OnMutation(h: int)
      requires Valid() && h > 0
      modifies this
      ensures Valid()
      ensures updateTimeout == Some(h) && pendingTimers == {h}
      ensures settings == old(settings) && priceElements == old(priceElements)
      ensures originalPrices == old(originalPrices) && indicatorElements == old(indicatorElements)
      ensures isProcessing == old(isProcessing)
    {
      if updateTimeout.Some? && updateTimeout.value != 0 {
        pendingTimers := pendingTimers - {updateTimeout.value};
      }
      updateTimeout := Some(h);
      pendingTimers := pendingTimers + {h};
    }

    /**
     * The timer `h` fires: scan the page, then update. `updateTimeout` keeps the
     * spent handle. Every element tracked afterwards was tracked before or is the
     * parent of a text node of the walk.
     */
    method OnTimerFired(h: int, walk: seq<TextNode>)
      requires Valid() && h in pendingTimers
      modifies this, Walk(priceElements, walk)
      ensures Valid()
      ensures pendingTimers == {} && updateTimeout == old(updateTimeout)
      ensures settings == old(settings) && isProcessing == old(isProcessing)
      ensures priceElements == if old(isProcessing) then old(priceElements) else Walk(old(priceElements), walk)
      ensures forall e | e in priceElements :: e in old(priceElements) || exists n | n in walk :: n.parent == e
      ensures !old(isProcessing) && settings.enabled ==>
                && IndicatorsCover(settings, originalPrices, indicatorElements)
                && forall e | e in priceElements ::
                     ElementUpdated(settings, Stored(originalPrices, e), Attached(indicatorElements, e),
                                    e.text, old(e.text), Stored(old(originalPrices), e))
      ensures !old(isProcessing) && !settings.enabled ==>
                && originalPrices == old(originalPrices)
                && indicatorElements == map[]
                && forall e | e in priceElements :: e.text == Restored(old(e.text), Stored(originalPrices, e))
    {
      WalkExtends(priceElements, walk);
      forall e | e in Walk(priceElements, walk)
        ensures e in priceElements || exists n | n in walk :: n.parent == e
      {
        if e !in priceElements {
          WalkAddsPriceParents(priceElements, walk, e);
        }
      }
      pendingTimers := pendingTimers - {h};
      FindPriceElements(walk);
      UpdatePrices();
    }

    /** Updating twice leaves what updating once leaves. */
    method UpdateTwice()
      requires Valid() && !isProcessing && settings.enabled
      modifies this, priceElements
      ensures Valid() && priceElements == old(priceElements) && settings == old(settings)
      ensures IndicatorsCover(settings, originalPrices, indicatorElements)
      ensures forall e | e in priceElements ::
                ElementUpdated(settings, Stored(originalPrices, e), Attached(indicatorElements, e),
                               e.text, old(e.text), Stored(old(originalPrices), e))
    {
      UpdatePrices();
      label once:
      UpdatePrices();
      forall e | e in priceElements
        ensures ElementUpdated(settings, Stored(originalPrices, e), Attached(indicatorElements, e),
                               e.text, old(e.text), Stored(old(originalPrices), e))
      {
        UpdateIdempotent(settings, Stored(old@once(originalPrices), e), Attached(old@once(indicatorElements), e),
                         Stored(originalPrices, e), Attached(indicatorElements, e),
                         old(e.text), old@once(e.text), e.text, Stored(old(originalPrices), e));
      }
    }

    /**
     * Marking up with `s` and then switching markup off leaves each element with a
     * stored price `p` showing `p` again in the currency format, after a `-` when
     * the marked-up price was negative and followed by the indicator's text when
     * indicators are shown; an element without one keeps its text.
     */
    method MarkUpThenRestore(s: Settings)
      requires Valid() && !isProcessing && s.enabled
      modifies this, priceElements
      ensures Valid() && priceElements == old(priceElements) && indicatorElements == map[]
      ensures forall e | e in priceElements ::
                e.text == if e in originalPrices then
                            var p := originalPrices[e];
                            (if p + CalculateMarkup(s, p) < 0.0 then "-" else "") + FormatUsd(p)
                            + (if s.showIndicator then IndicatorText(s, Badge(s, p)) else "")
                          else old(e.text)
    {
      ApplySettings(s);
      label marked:
      ApplySettings(s.(enabled := false));
      forall e | e in priceElements
        ensures e.text == if e in originalPrices then
                            var p := originalPrices[e];
                            (if p + CalculateMarkup(s, p) < 0.0 then "-" else "") + FormatUsd(p)
                            + (if s.showIndicator then IndicatorText(s, Badge(s, p)) else "")
                          else old(e.text)
      {
        RestoreAfterUpdate(s, Stored(originalPrices, e), Attached(old@marked(indicatorElements), e),
                           old@marked(e.text), old(e.text), Stored(old(originalPrices), e));
      }
    }
  }
}
