/**
 * The shared helpers: a price-text test, a test for an ISO currency code in a
 * text, and the depth-first search for the first text node that holds a price.
 */
module Helpers {
  import opened Wrappers
  import opened JsText
  import PriceText

  // ---------------------------------------------------------------------------
  // isPriceNode: /(?:^\$|\$\s+|\s+\$|\s+€|\s+£|\s+¥)?\s*\d+(?:,\d{3})*(?:\.\d{2})?/.test(text)
  // The prefix group is the content script's (`PriceText.PrefixMatches`), here optional.

  /**
   * The regex matches from `i`: the prefix group (or nothing) up to `j`, `\s*`
   * up to `k`, then a digit. After the first digit the rest of the pattern,
   * `\d*(?:,\d{3})*(?:\.\d{2})?`, can always match the empty string, so it
   * never decides whether `test` succeeds.
   */
  predicate MatchAt(t: string, i: nat)
    requires i <= |t|
  {
    exists j, k | i <= j <= k < |t| :: (j == i || PriceText.PrefixMatches(t, i, j)) && AllSpaces(t, j, k) && IsDigit(t[k])
  }

  /** `isPriceNode` of the helpers: false for the empty text, else whether the regex matches somewhere. */
  predicate IsPriceNode(text: string) {
    text != [] && exists i | 0 <= i <= |text| :: MatchAt(text, i)
  }

  /** With the prefix optional and the pattern unanchored, a text passes exactly when it holds a digit. */
  lemma IsPriceNodeDigit(text: string)
    ensures IsPriceNode(text) <==> ContainsDigit(text)
  {
    if ContainsDigit(text) {
      var k :| 0 <= k < |text| && IsDigit(text[k]);
      assert AllSpaces(text, k, k);
      assert MatchAt(text, k);
    }
    if IsPriceNode(text) {
      var i :| 0 <= i <= |text| && MatchAt(text, i);
      var j, k :| i <= j <= k < |text| && (j == i || PriceText.PrefixMatches(text, i, j)) && AllSpaces(text, j, k) && IsDigit(text[k]);
      assert IsDigit(text[k]);
    }
  }

  // ---------------------------------------------------------------------------
  // containsCurrency: /\b(?:USD|EUR|GBP|JPY|CAD|AUD|CHF|CNY|INR)\b/i.test(text)

  /** The currency codes of the alternation, in its order. */
  const CurrencyCodes: seq<string> := ["USD", "EUR", "GBP", "JPY", "CAD", "AUD", "CHF", "CNY", "INR"]

  /** The class `\w` that `\b` looks at: ASCII letters, digits and `_`. */
  predicate IsWordChar(c: char) {
    'a' <= c <= 'z' || 'A' <= c <= 'Z' || '0' <= c <= '9' || c == '_'
  }

  /** `\b` at position `p`: a word character on exactly one side of it. */
  predicate WordBoundary(t: string, p: nat)
    requires p <= |t|
  {
    (p > 0 && IsWordChar(t[p - 1])) != (p < |t| && IsWordChar(t[p]))
  }

  /**
   * The canonical form under the `i` flag without `u`: the upper case, where
   * only ASCII letters change, since no other character folds onto an ASCII one.
   */
  function UpperAscii(c: char): (u: char)
    ensures 'a' <= c <= 'z' ==> 'A' <= u <= 'Z' && u as int == c as int - 32
    ensures !('a' <= c <= 'z') ==> u == c
  {
    if 'a' <= c <= 'z' then (c as int - 32) as char else c
  }

  /** The canonical form of the three characters `t[i..i + 3]`, which the codes are compared with. */
  function Canonical3(t: string, i: nat): (r: string)
    requires i + 3 <= |t|
    ensures |r| == 3
  {
    [UpperAscii(t[i]), UpperAscii(t[i + 1]), UpperAscii(t[i + 2])]
  }

  /** The regex matches at `i`: a boundary, one of the codes in any case, a boundary. */
  predicate CurrencyAt(t: string, i: nat)
    requires i <= |t|
  {
    i + 3 <= |t| && WordBoundary(t, i) && WordBoundary(t, i + 3) && Canonical3(t, i) in CurrencyCodes
  }

  /** `containsCurrency`. */
  predicate ContainsCurrency(text: string) {
    exists i | 0 <= i <= |text| :: CurrencyAt(text, i)
  }

  /** `text` with every ASCII letter in upper case. */
  function Upper(text: string): (r: string)
    ensures |r| == |text|
  {
    seq(|text|, k requires 0 <= k < |text| => UpperAscii(text[k]))
  }

  /** Upper-casing changes neither which characters are word characters nor their canonical form. */
  lemma UpperAsciiKeeps(c: char)
    ensures IsWordChar(UpperAscii(c)) == IsWordChar(c)
    ensures UpperAscii(UpperAscii(c)) == UpperAscii(c)
  {
  }

  /** Upper-casing keeps every word boundary. */
  lemma BoundaryUpper(text: string, p: nat)
    requires p <= |text|
    ensures WordBoundary(Upper(text), p) == WordBoundary(text, p)
  {
    if p > 0 { UpperAsciiKeeps(text[p - 1]); }
    if p < |text| { UpperAsciiKeeps(text[p]); }
  }

  /** Upper-casing keeps the canonical form of every three characters. */
  lemma CanonicalUpper(text: string, i: nat)
    requires i + 3 <= |text|
    ensures Canonical3(Upper(text), i) == Canonical3(text, i)
  {
    UpperAsciiKeeps(text[i]);
    UpperAsciiKeeps(text[i + 1]);
    UpperAsciiKeeps(text[i + 2]);
  }

  /** The codes match at the same places of a text and of its upper-case form. */
  lemma CurrencyAtUpper(text: string, i: nat)
    requires i <= |text|
    ensures CurrencyAt(text, i) <==> CurrencyAt(Upper(text), i)
  {
    if i + 3 <= |text| {
      BoundaryUpper(text, i);
      BoundaryUpper(text, i + 3);
      CanonicalUpper(text, i);
    }
  }

  /** `containsCurrency` ignores case. */
  lemma ContainsCurrencyUpper(text: string)
    ensures ContainsCurrency(text) <==> ContainsCurrency(Upper(text))
  {
    forall i | 0 <= i <= |text| ensures CurrencyAt(text, i) <==> CurrencyAt(Upper(text), i) {
      CurrencyAtUpper(text, i);
    }
  }

  /** A code standing as a word of its own, in any case, is found. */
  lemma CodeAsWord(text: string, i: nat)
    requires i + 3 <= |text| && Canonical3(text, i) in CurrencyCodes
    requires i == 0 || !IsWordChar(text[i - 1])
    requires i + 3 == |text| || !IsWordChar(text[i + 3])
    ensures ContainsCurrency(text)
  {
    var code := Canonical3(text, i);
    assert 'A' <= code[0] <= 'Z' && 'A' <= code[2] <= 'Z';
    assert IsWordChar(text[i]) && IsWordChar(text[i + 2]);
    assert CurrencyAt(text, i);
  }

  /** A code in lower case behind a number is found: `12.50 usd`. */
  lemma ContainsCurrencyExample()
    ensures ContainsCurrency("12.50 usd")
  {
    assert Canonical3("12.50 usd", 6) == "USD";
    CodeAsWord("12.50 usd", 6);
  }

  /** A code that runs on into more letters is not a word of its own: `USDT`. */
  lemma NotContainsCurrencyExample()
    ensures !ContainsCurrency("USDT")
  {
    var t := "USDT";
    forall i | 0 <= i <= |t| ensures !CurrencyAt(t, i) {
      if 0 < i < |t| {
        assert IsWordChar(t[i - 1]) && IsWordChar(t[i]);
      } else if i == 0 {
        assert IsWordChar(t[2]) && IsWordChar(t[3]);
      }
    }
  }

  // ---------------------------------------------------------------------------
  // getPriceFromChildNodes: a depth-first search over the node tree.

  /** A DOM node as the search sees it: a text node with its data, an element with its child nodes, or any other node. */
  datatype Node = Text(data: string) | Elem(children: seq<Node>) | Other

  /**
   * `traverse`: a text node with non-empty data yields its trimmed text if that
   * passes `IsPriceNode`; an element yields the first hit among its children;
   * every other node yields nothing.
   */
  function Traverse(node: Node): (r: Option<string>)
    ensures r.Some? ==> r.value != [] && Trim(r.value) == r.value && IsPriceNode(r.value)
    decreases node, 1
  {
    match node
    case Text(data) =>
      if data != [] && IsPriceNode(Trim(data)) then
        TrimIdempotent(data);
        Some(Trim(data))
      else None
    case Elem(children) => FirstHit(children)
    case Other => None
  }

  /** The `for` loop over the children: the first child whose search yields a (non-empty) text. */
  function FirstHit(children: seq<Node>): (r: Option<string>)
    ensures r.Some? ==> r.value != [] && Trim(r.value) == r.value && IsPriceNode(r.value)
    decreases children, 0
  {
    if children == [] then None
    else match Traverse(children[0])
      case Some(text) => Some(text)
      case None => FirstHit(children[1..])
  }

  /** `getPriceFromChildNodes`. */
  function GetPriceFromChildNodes(element: Node): (r: Option<string>)
    requires element.Elem?
    ensures r.Some? ==> r.value != [] && Trim(r.value) == r.value && IsPriceNode(r.value)
  {
    Traverse(element)
  }

  /** The data of the text nodes at or below `node`, in document order. */
  function TextsInOrder(node: Node): seq<string>
    decreases node, 1
  {
    match node
    case Text(data) => [data]
    case Elem(children) => TextsOfChildren(children)
    case Other => []
  }

  /** The data of the text nodes below each of `children`, in document order. */
  function TextsOfChildren(children: seq<Node>): seq<string>
    decreases children, 0
  {
    if children == [] then [] else TextsInOrder(children[0]) + TextsOfChildren(children[1..])
  }

  /** A text node's data counts as a price when it is not empty and its trim passes `IsPriceNode`. */
  predicate PriceData(data: string) {
    data != [] && IsPriceNode(Trim(data))
  }

  /** The trim of the first text in `texts` that counts as a price. */
  function FirstPriceText(texts: seq<string>): (r: Option<string>)
    ensures r.Some? <==> exists k | 0 <= k < |texts| :: PriceData(texts[k])
    ensures r.Some? ==> exists k | 0 <= k < |texts| :: PriceData(texts[k]) && r.value == Trim(texts[k])
                          && forall m | 0 <= m < k :: !PriceData(texts[m])
  {
    if texts == [] then None
    else if PriceData(texts[0]) then Some(Trim(texts[0]))
    else
      var r := FirstPriceText(texts[1..]);
      assert forall k | 1 <= k < |texts| :: texts[k] == texts[1..][k - 1];
      r
  }

  /** The first price text of a concatenation is that of the first part, or else that of the second. */
  lemma {:induction false} FirstPriceTextAppend(a: seq<string>, b: seq<string>)
    ensures FirstPriceText(a + b) == if FirstPriceText(a).Some? then FirstPriceText(a) else FirstPriceText(b)
  {
    if a != [] {
      assert (a + b)[0] == a[0];
      assert (a + b)[1..] == a[1..] + b;
      FirstPriceTextAppend(a[1..], b);
    } else {
      assert a + b == b;
    }
  }

  /** `traverse` returns the trimmed first text node, in document order, that holds a price. */
  lemma {:induction false} TraverseFirstPriceText(node: Node)
    ensures Traverse(node) == FirstPriceText(TextsInOrder(node))
    decreases node, 1
  {
    match node
    case Text(data) =>
      assert [data][1..] == [];
    case Elem(children) =>
      FirstHitFirstPriceText(children);
    case Other =>
  }

  /** The loop over the children returns the first price text among all their texts. */
  lemma {:induction false} FirstHitFirstPriceText(children: seq<Node>)
    ensures FirstHit(children) == FirstPriceText(TextsOfChildren(children))
    decreases children, 0
  {
    if children != [] {
      TraverseFirstPriceText(children[0]);
      FirstHitFirstPriceText(children[1..]);
      FirstPriceTextAppend(TextsInOrder(children[0]), TextsOfChildren(children[1..]));
    }
  }

  /** Nothing is found exactly when no text node below holds a digit after trimming. */
  lemma GetPriceNone(element: Node)
    requires element.Elem?
    ensures GetPriceFromChildNodes(element).None?
            <==> forall k | 0 <= k < |TextsInOrder(element)| :: !ContainsDigit(Trim(TextsInOrder(element)[k]))
  {
    var texts := TextsInOrder(element);
    TraverseFirstPriceText(element);
    forall k | 0 <= k < |texts| ensures PriceData(texts[k]) <==> ContainsDigit(Trim(texts[k])) {
      IsPriceNodeDigit(Trim(texts[k]));
      if texts[k] == [] {
        assert Trim(texts[k]) == [];
      }
    }
  }
}
