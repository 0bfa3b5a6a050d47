/**
 * The slice of the DOM the price code touches. An element's structure (class
 * attribute, tag, parent, `title`, descendants in document order) is fixed; its
 * `textContent` is a mutable field. Writing one element's text does not
 * recompute the text of its ancestors or detach its descendants (see README).
 */
module Dom {
  import opened Wrappers
  import opened JsText

  /** ASCII whitespace: the separator of the tokens in a `class` attribute. */
  predicate IsAsciiSpace(c: char) {
    c == ' ' || c == '\t' || c == '\n' || c == '\U{C}' || c == '\r'
  }

  /** `token` occurs in `s` at `i` as a whole whitespace-separated token. */
  predicate TokenAt(s: string, i: nat, token: string) {
    StartsWithAt(s, i, token)
    && (i == 0 || IsAsciiSpace(s[i - 1]))
    && (i + |token| == |s| || IsAsciiSpace(s[i + |token|]))
  }

  /** `element.classList.contains(token)` for a class attribute `s`. */
  predicate HasClass(s: string, token: string) {
    exists i: nat | i <= |s| :: TokenAt(s, i, token)
  }

  class Element {
    /** The `class` attribute (`className`). */
    const className: string
    /** The tag name as `querySelectorAll('span')` compares it. */
    const localName: string
    /** Whether the element is an `HTMLElement` (and not, say, an SVG element). */
    const isHTML: bool
    /**
     * Whether `className` is a string. On an SVG element it is an
     * `SVGAnimatedString` object, which is never equal to a string.
     */
    const classNameIsString: bool
    /** `parentElement`. */
    const parent: Element?
    /** `getAttribute('title')`. */
    const title: Option<string>
    /** Every element below this one, in document order (what `querySelectorAll` searches). */
    const descendants: seq<Element>
    /** `textContent`. */
    var text: string

    constructor (className: string, localName: string, isHTML: bool, classNameIsString: bool,
                 parent: Element?, title: Option<string>, descendants: seq<Element>, text: string)
      ensures this.className == className && this.localName == localName
      ensures this.isHTML == isHTML && this.classNameIsString == classNameIsString
      ensures this.parent == parent && this.title == title
      ensures this.descendants == descendants && this.text == text
    {
      this.className := className;
      this.localName := localName;
      this.isHTML := isHTML;
      this.classNameIsString := classNameIsString;
      this.parent := parent;
      this.title := title;
      this.descendants := descendants;
      this.text := text;
    }
  }

  /** What a tree-walker filter answers for a node. */
  datatype FilterResult = Accept | Reject | Skip

  /** The `NodeFilter` constant of each answer. */
  function Code(r: FilterResult): (c: int)
    ensures 1 <= c <= 3
  {
    match r
    case Accept => 1
    case Reject => 2
    case Skip => 3
  }

  /** A text node as a tree walker hands it over: its parent element, if any, and its data. */
  datatype TextNode = TextNode(parent: Element?, data: string)

  /** The elements of `es` that carry class `token`, in order: `querySelectorAll('.' + token)`. */
  function WithClass(es: seq<Element>, token: string): (r: seq<Element>)
    ensures |r| <= |es|
    ensures forall x | x in r :: x in es && HasClass(x.className, token)
    ensures forall x | x in es && HasClass(x.className, token) :: x in r
  {
    if es == [] then []
    else (if HasClass(es[0].className, token) then [es[0]] else []) + WithClass(es[1..], token)
  }

  /** The elements of `es` whose tag is `span`, in order: `querySelectorAll('span')`. */
  function Spans(es: seq<Element>): (r: seq<Element>)
    ensures |r| <= |es|
    ensures forall x | x in r :: x in es && x.localName == "span"
    ensures forall x | x in es && x.localName == "span" :: x in r
  {
    if es == [] then []
    else (if es[0].localName == "span" then [es[0]] else []) + Spans(es[1..])
  }

  /** The elements of `es` that are `HTMLElement`s, in order. */
  function HtmlOnly(es: seq<Element>): (r: seq<Element>)
    ensures |r| <= |es|
    ensures forall x | x in r :: x in es && x.isHTML
    ensures forall x | x in es && x.isHTML :: x in r
  {
    if es == [] then []
    else (if es[0].isHTML then [es[0]] else []) + HtmlOnly(es[1..])
  }

  /** Keeping the `HTMLElement`s of a concatenation keeps those of each part. */
  lemma {:induction false} HtmlOnlyAppend(a: seq<Element>, b: seq<Element>)
    ensures HtmlOnly(a + b) == HtmlOnly(a) + HtmlOnly(b)
  {
    if a == [] {
      assert a + b == b;
    } else {
      assert (a + b)[0] == a[0];
      assert (a + b)[1..] == a[1..] + b;
      HtmlOnlyAppend(a[1..], b);
    }
  }

  /** One element is kept exactly when it is an `HTMLElement`. */
  lemma HtmlOnlyOne(x: Element)
    ensures HtmlOnly([x]) == if x.isHTML then [x] else []
  {
    assert [x][1..] == [];
  }

  /** The prefix of `s` one longer than `s[..i]` ends with `s[i]`. */
  lemma PrefixSnoc<T>(s: seq<T>, i: nat)
    requires i < |s|
    ensures s[..i + 1] == s[..i] + [s[i]]
  {
  }

  /** The first index of `es` whose element carries class `token`. */
  function FirstWithClass(es: seq<Element>, token: string): (r: Option<nat>)
    ensures r.Some? ==> r.value < |es| && HasClass(es[r.value].className, token)
    ensures r.Some? ==> forall k | 0 <= k < r.value :: !HasClass(es[k].className, token)
    ensures r.None? ==> forall k | 0 <= k < |es| :: !HasClass(es[k].className, token)
  {
    if es == [] then None
    else if HasClass(es[0].className, token) then Some(0)
    else match FirstWithClass(es[1..], token)
      case None => None
      case Some(k) => Some(k + 1)
  }

  /** `e.querySelector('.' + token)`: the first descendant with that class, or null. */
  function QuerySelector(e: Element, token: string): (r: Element?)
    ensures r != null <==> exists k | 0 <= k < |e.descendants| :: HasClass(e.descendants[k].className, token)
    ensures r != null ==> r in e.descendants && HasClass(r.className, token)
  {
    match FirstWithClass(e.descendants, token)
    case None => null
    case Some(k) => e.descendants[k]
  }

  /** No element occurs twice in `es`, as in every node list. */
  predicate Distinct(es: seq<Element>) {
    forall i, j | 0 <= i < j < |es| :: DifferAt(es, i, j)
  }

  /** The elements at positions `i` and `j` of `es` are not the same one. */
  predicate DifferAt(es: seq<Element>, i: nat, j: nat)
    requires i < |es| && j < |es|
  {
    es[i] != es[j]
  }

  /** In a sequence free of repeats, the element at `i` occurs at no other position. */
  lemma DistinctAt(es: seq<Element>, i: nat)
    requires Distinct(es) && i < |es|
    ensures forall k | 0 <= k < |es| && k != i :: es[k] != es[i]
  {
    forall k | 0 <= k < |es| && k != i
      ensures es[k] != es[i]
    {
      if k < i { assert DifferAt(es, k, i); } else { assert DifferAt(es, i, k); }
    }
  }

  /** Appending an element not yet present keeps a sequence free of repeats. */
  lemma DistinctAppend(es: seq<Element>, x: Element)
    requires Distinct(es) && x !in es
    ensures Distinct(es + [x])
  {
    var r := es + [x];
    forall i, j | 0 <= i < j < |r| ensures DifferAt(r, i, j) {
      if j < |es| {
        assert DifferAt(es, i, j);
      }
    }
  }
}
