/**
 * The tree-walker filter for the Snap-on parts catalogue: which text nodes the
 * walker hands to the price code. The page address is a parameter.
 */
module SnapOnEpc {
  import opened Wrappers
  import opened JsText
  import opened Dom
  import Helpers

  /** `title && containsCurrency(title)` for the parent's `title` attribute. */
  predicate TitleShowsCurrency(title: Option<string>) {
    title.Some? && title.value != [] && Helpers.ContainsCurrency(title.value)
  }

  /** `snapOnEpcUseCase` at the page address `href`, for a node with its parent element and its `textContent`. */
  function SnapOnEpcUseCase(href: string, node: TextNode): (r: FilterResult)
    ensures !Includes(href, "snaponepc.com") ==> r == Skip
  {
    if !Includes(href, "snaponepc.com") then Skip
    else if node.parent == null then Reject
    else if TitleShowsCurrency(node.parent.title) then Accept
    else
      var grandparent := node.parent.parent;
      if grandparent != null && grandparent.classNameIsString && grandparent.className == "ng-star-inserted" then
        var priceText := Trim(node.data);
        if priceText != [] && Helpers.IsPriceNode(priceText) then Accept else Skip
      else Skip
  }

  /** On the catalogue a node is rejected exactly when it has no parent element. */
  lemma SnapOnEpcReject(href: string, node: TextNode)
    ensures SnapOnEpcUseCase(href, node) == Reject <==> Includes(href, "snaponepc.com") && node.parent == null
  {
  }

  /**
   * A node is accepted exactly when, on the catalogue, its parent's title names
   * a currency, or its grandparent's `className` is the string
   * `ng-star-inserted` exactly and its trimmed text holds a digit.
   */
  lemma SnapOnEpcAccept(href: string, node: TextNode)
    ensures SnapOnEpcUseCase(href, node) == Accept
            <==> Includes(href, "snaponepc.com") && node.parent != null
                 && (TitleShowsCurrency(node.parent.title)
                     || (node.parent.parent != null && node.parent.parent.classNameIsString
                         && node.parent.parent.className == "ng-star-inserted"
                         && ContainsDigit(Trim(node.data))))
  {
    Helpers.IsPriceNodeDigit(Trim(node.data));
    if ContainsDigit(Trim(node.data)) {
      assert Trim(node.data) != [];
    }
  }

  /** A title naming a currency settles the answer without looking at the node's text. */
  lemma SnapOnEpcTitleFirst(href: string, node: TextNode, data: string)
    requires Includes(href, "snaponepc.com") && node.parent != null && TitleShowsCurrency(node.parent.title)
    ensures SnapOnEpcUseCase(href, node) == Accept
    ensures SnapOnEpcUseCase(href, TextNode(node.parent, data)) == Accept
  {
  }

  /** The grandparent's class is compared as a whole: one more class on it means the text is not looked at. */
  lemma SnapOnEpcClassExample(href: string, node: TextNode)
    requires Includes(href, "snaponepc.com") && node.parent != null && !TitleShowsCurrency(node.parent.title)
    requires node.parent.parent != null && node.parent.parent.className == "price ng-star-inserted"
    ensures SnapOnEpcUseCase(href, node) == Skip
  {
    assert "price ng-star-inserted" != "ng-star-inserted" by {
      assert |"price ng-star-inserted"| != |"ng-star-inserted"|;
    }
  }

  /**
   * An SVG grandparent never passes the class test, whatever its class
   * attribute says: its `className` is not a string.
   */
  lemma SnapOnEpcSvgGrandparent(href: string, node: TextNode)
    requires Includes(href, "snaponepc.com") && node.parent != null && !TitleShowsCurrency(node.parent.title)
    requires node.parent.parent != null && !node.parent.parent.classNameIsString
    ensures SnapOnEpcUseCase(href, node) == Skip
  {
  }
}
