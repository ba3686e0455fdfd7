/**
 * A parsed XML document as the fetcher sees it through the DOM: a tree of elements and text, the
 * DOM queries `getAttribute`, `getNamedItem`, `getTextContent` and `getElementsByTagName`, and the
 * XPath location paths made of child steps (`/snapshot`, `/snapshot/publish`).
 */
module Xml {
  import opened Wrappers

  /** A DOM node: character data, or an element with its tag name, attributes and children in document order. */
  datatype Node =
    | Text(data: string)
    | Element(tag: string, attributes: map<string, string>, children: seq<Node>)

  /** A document element, and every node an element query returns. */
  type ElementNode = n: Node | n.Element? witness Element("", map[], [])

  /** `Element.getAttribute(name)`: the attribute's value, or the empty string when it is absent. */
  function GetAttribute(e: ElementNode, name: string): string {
    if name in e.attributes then e.attributes[name] else ""
  }

  /** `getAttributes().getNamedItem(name).getNodeValue()`, where `None` is the null item. */
  function NamedItem(e: ElementNode, name: string): Option<string> {
    if name in e.attributes then Some(e.attributes[name]) else None
  }

  /** `getAttribute` gives the value of the attribute node `getNamedItem` finds, and "" where that is null. */
  lemma GetAttributeOfNamedItem(e: ElementNode, name: string)
    ensures GetAttribute(e, name) == match NamedItem(e, name) case Some(v) => v case None => ""
  {
  }

  // ---------------------------------------------------------------------------
  // Node.getTextContent

  /** `getTextContent`: the character data of the node and all its descendants, in document order. */
  function TextContent(n: Node): string
    decreases n, 1, 0
  {
    match n
    case Text(d) => d
    case Element(_, _, _) => ChildrenText(n, 0)
  }

  function ChildrenText(n: Node, i: nat): string
    requires n.Element? && i <= |n.children|
    decreases n, 0, |n.children| - i
  {
    if i == |n.children| then "" else TextContent(n.children[i]) + ChildrenText(n, i + 1)
  }

  /** The text content of an element whose only child is character data is that data. */
  lemma TextContentOfTextChild(tag: string, attributes: map<string, string>, data: string)
    ensures TextContent(Element(tag, attributes, [Text(data)])) == data
  {
    var e := Element(tag, attributes, [Text(data)]);
    assert ChildrenText(e, 1) == "";
    assert ChildrenText(e, 0) == data + "";
  }

  /** Appending a child appends its text content: the text is read in document order. */
  lemma TextContentAppend(tag: string, attributes: map<string, string>, children: seq<Node>, c: Node)
    ensures TextContent(Element(tag, attributes, children + [c])) ==
            TextContent(Element(tag, attributes, children)) + TextContent(c)
  {
    ChildrenTextAppend(tag, attributes, children, c, 0);
  }

  lemma {:induction false} ChildrenTextAppend(tag: string, attributes: map<string, string>, children: seq<Node>, c: Node, i: nat)
    requires i <= |children|
    ensures ChildrenText(Element(tag, attributes, children + [c]), i) ==
            ChildrenText(Element(tag, attributes, children), i) + TextContent(c)
    decreases |children| - i
  {
    var long, short := Element(tag, attributes, children + [c]), Element(tag, attributes, children);
    if i == |children| {
      assert long.children[i] == c;
      assert ChildrenText(long, i + 1) == "";
    } else {
      assert long.children[i] == short.children[i];
      ChildrenTextAppend(tag, attributes, children, c, i + 1);
    }
  }

  // ---------------------------------------------------------------------------
  // Element.getElementsByTagName

  /** `getElementsByTagName(tag)`: every descendant element named `tag`, in document order (pre-order). */
  function ElementsByTagName(n: Node, tag: string): (r: seq<ElementNode>)
    ensures forall k :: 0 <= k < |r| ==> r[k].tag == tag
    ensures n.Element? ==> forall j :: 0 <= j < |n.children| && n.children[j].Element? && n.children[j].tag == tag ==>
              n.children[j] in r
    ensures n.Element? ==> forall j, x :: 0 <= j < |n.children| && x in ElementsByTagName(n.children[j], tag) ==> x in r
    decreases n, 1, 0
  {
    match n
    case Text(_) => []
    case Element(_, _, _) => DescendantsFrom(n, tag, 0)
  }

  /** The descendants named `tag` inside the children of `n` from index `i` on. */
  function DescendantsFrom(n: Node, tag: string, i: nat): (r: seq<ElementNode>)
    requires n.Element? && i <= |n.children|
    ensures forall k :: 0 <= k < |r| ==> r[k].tag == tag
    ensures forall j :: i <= j < |n.children| && n.children[j].Element? && n.children[j].tag == tag ==> n.children[j] in r
    ensures forall j, x :: i <= j < |n.children| && x in ElementsByTagName(n.children[j], tag) ==> x in r
    decreases n, 0, |n.children| - i
  {
    if i == |n.children| then []
    else
      var c := n.children[i];
      (if c.Element? && c.tag == tag then [c] else []) + ElementsByTagName(c, tag) + DescendantsFrom(n, tag, i + 1)
  }

  /** Neither `c` nor anything inside it is an element named `tag`. */
  predicate Lacks(c: Node, tag: string) {
    !(c.Element? && c.tag == tag) && ElementsByTagName(c, tag) == []
  }

  lemma {:induction false} DescendantsFromFirst(n: Node, tag: string, i: nat, j: nat)
    requires n.Element? && i <= j < |n.children|
    requires n.children[j].Element? && n.children[j].tag == tag
    requires forall k :: i <= k < j ==> Lacks(n.children[k], tag)
    ensures var r := DescendantsFrom(n, tag, i); |r| > 0 && r[0] == n.children[j]
    decreases j - i
  {
    if i < j {
      DescendantsFromFirst(n, tag, i + 1, j);
      assert Lacks(n.children[i], tag);
    }
  }

  lemma {:induction false} DescendantsFromFirstInside(n: Node, tag: string, i: nat, j: nat)
    requires n.Element? && i <= j < |n.children|
    requires !(n.children[j].Element? && n.children[j].tag == tag) && ElementsByTagName(n.children[j], tag) != []
    requires forall k :: i <= k < j ==> Lacks(n.children[k], tag)
    ensures var r := DescendantsFrom(n, tag, i); |r| > 0 && r[0] == ElementsByTagName(n.children[j], tag)[0]
    decreases j - i
  {
    if i < j {
      DescendantsFromFirstInside(n, tag, i + 1, j);
      assert Lacks(n.children[i], tag);
    }
  }

  /**
   * The first item of `getElementsByTagName(tag)` is the first item inside the first child that
   * contains an element named `tag`, when that child is not itself named `tag` and the children
   * before it contain no such element. With `FirstElementByTagName`, `item(0)` is the first match
   * in pre-order at every depth.
   */
  lemma FirstElementInside(e: ElementNode, tag: string, j: nat)
    requires j < |e.children| && !(e.children[j].Element? && e.children[j].tag == tag)
    requires ElementsByTagName(e.children[j], tag) != []
    requires forall k :: 0 <= k < j ==> Lacks(e.children[k], tag)
    ensures var r := ElementsByTagName(e, tag); |r| > 0 && r[0] == ElementsByTagName(e.children[j], tag)[0]
  {
    DescendantsFromFirstInside(e, tag, 0, j);
  }

  lemma {:induction false} DescendantsFromSound(n: Node, tag: string, i: nat, x: ElementNode)
    requires n.Element? && i < |n.children| && x in DescendantsFrom(n, tag, i)
    ensures exists j :: i <= j < |n.children| && (x == n.children[j] || x in ElementsByTagName(n.children[j], tag))
    decreases |n.children| - i
  {
    if i + 1 < |n.children| && x in DescendantsFrom(n, tag, i + 1) {
      DescendantsFromSound(n, tag, i + 1, x);
    } else {
      assert x == n.children[i] || x in ElementsByTagName(n.children[i], tag);
    }
  }

  /**
   * Everything `getElementsByTagName` returns is found in the tree: a child of the node, or something
   * the search inside one of its children returns (so, by induction, a descendant element).
   */
  lemma ElementsByTagNameSound(n: Node, tag: string)
    ensures forall x :: x in ElementsByTagName(n, tag) ==>
              n.Element? && exists j :: 0 <= j < |n.children| && (x == n.children[j] || x in ElementsByTagName(n.children[j], tag))
  {
    if n.Element? && |n.children| > 0 {
      forall x | x in ElementsByTagName(n, tag)
        ensures exists j :: 0 <= j < |n.children| && (x == n.children[j] || x in ElementsByTagName(n.children[j], tag))
      {
        DescendantsFromSound(n, tag, 0, x);
      }
    }
  }

  /**
   * The first item of `getElementsByTagName(tag)` is the first child named `tag` when the children
   * before it contain no element of that name.
   */
  lemma FirstElementByTagName(e: ElementNode, tag: string, j: nat)
    requires j < |e.children| && e.children[j].Element? && e.children[j].tag == tag
    requires forall k :: 0 <= k < j ==> Lacks(e.children[k], tag)
    ensures var r := ElementsByTagName(e, tag); |r| > 0 && r[0] == e.children[j]
  {
    DescendantsFromFirst(e, tag, 0, j);
  }

  // ---------------------------------------------------------------------------
  // XPath location paths of child steps

  /** The children of `e` from index `i` on that are elements named `name`, in document order. */
  function ChildElementsFrom(e: ElementNode, name: string, i: nat): (r: seq<ElementNode>)
    requires i <= |e.children|
    ensures forall k :: 0 <= k < |r| ==> r[k].tag == name && r[k] in e.children[i..]
    ensures forall j :: i <= j < |e.children| && e.children[j].Element? && e.children[j].tag == name ==> e.children[j] in r
    decreases |e.children| - i
  {
    if i == |e.children| then []
    else
      var c := e.children[i];
      var rest := ChildElementsFrom(e, name, i + 1);
      assert forall k :: 0 <= k < |rest| ==> rest[k] in e.children[i..] by {
        assert e.children[i + 1..] == e.children[i..][1..];
      }
      if c.Element? && c.tag == name then [c] + rest else rest
  }

  /**
   * `r` lists the children of `e` at the positions `idx`, which rise strictly and include every
   * position from `i` on that holds an element named `name`.
   */
  ghost predicate InDocumentOrder(e: ElementNode, name: string, i: nat, r: seq<ElementNode>, idx: seq<nat>) {
    && |idx| == |r|
    && (forall k :: 0 <= k < |idx| ==> i <= idx[k] < |e.children| && e.children[idx[k]] == r[k])
    && (forall k, l :: 0 <= k < l < |idx| ==> idx[k] < idx[l])
    && (forall j :: i <= j < |e.children| && e.children[j].Element? && e.children[j].tag == name ==> j in idx)
  }

  /** The positions of the children that `ChildElementsFrom(e, name, i)` selects. */
  ghost function ChildPositions(e: ElementNode, name: string, i: nat): (idx: seq<nat>)
    requires i <= |e.children|
    ensures InDocumentOrder(e, name, i, ChildElementsFrom(e, name, i), idx)
    decreases |e.children| - i
  {
    if i == |e.children| then []
    else
      var rest := ChildPositions(e, name, i + 1);
      PositionsStep(e, name, i, rest);
      var c := e.children[i];
      if c.Element? && c.tag == name then [i] + rest else rest
  }

  lemma PositionsStep(e: ElementNode, name: string, i: nat, rest: seq<nat>)
    requires i < |e.children| && InDocumentOrder(e, name, i + 1, ChildElementsFrom(e, name, i + 1), rest)
    ensures var c := e.children[i];
            InDocumentOrder(e, name, i, ChildElementsFrom(e, name, i), if c.Element? && c.tag == name then [i] + rest else rest)
  {
    var c := e.children[i];
    if c.Element? && c.tag == name {
      PositionsStepSelected(e, name, i, ChildElementsFrom(e, name, i + 1), rest);
    } else {
      PositionsStepSkipped(e, name, i, ChildElementsFrom(e, name, i + 1), rest);
    }
  }

  lemma PositionsStepSelected(e: ElementNode, name: string, i: nat, tail: seq<ElementNode>, rest: seq<nat>)
    requires i < |e.children| && e.children[i].Element? && e.children[i].tag == name
    requires InDocumentOrder(e, name, i + 1, tail, rest)
    ensures InDocumentOrder(e, name, i, [e.children[i]] + tail, [i] + rest)
  {
    var r, idx := [e.children[i]] + tail, [i] + rest;
    forall k | 0 <= k < |idx|
      ensures i <= idx[k] < |e.children| && e.children[idx[k]] == r[k]
    {
      if k > 0 {
        assert idx[k] == rest[k - 1] && r[k] == tail[k - 1];
      }
    }
    forall k, l | 0 <= k < l < |idx|
      ensures idx[k] < idx[l]
    {
      assert idx[l] == rest[l - 1];
      if k > 0 {
        assert idx[k] == rest[k - 1];
      }
    }
    forall j | i <= j < |e.children| && e.children[j].Element? && e.children[j].tag == name
      ensures j in idx
    {
      if j > i {
        assert j in rest;
      }
    }
  }

  lemma PositionsStepSkipped(e: ElementNode, name: string, i: nat, tail: seq<ElementNode>, rest: seq<nat>)
    requires i < |e.children| && !(e.children[i].Element? && e.children[i].tag == name)
    requires InDocumentOrder(e, name, i + 1, tail, rest)
    ensures InDocumentOrder(e, name, i, tail, rest)
  {
    forall j | i <= j < |e.children| && e.children[j].Element? && e.children[j].tag == name
      ensures j in rest
    {
      assert j != i;
    }
  }

  /**
   * One child step `.../name` from the element `e`: its children that are elements named `name`,
   * each once and in document order.
   */
  function ChildElements(e: ElementNode, name: string): (r: seq<ElementNode>)
    ensures forall k :: 0 <= k < |r| ==> r[k].tag == name && r[k] in e.children
    ensures forall c :: c in e.children && c.Element? && c.tag == name ==> c in r
    ensures InDocumentOrder(e, name, 0, r, ChildPositions(e, name, 0))
  {
    assert e.children[0..] == e.children;
    ChildElementsFrom(e, name, 0)
  }

  /** A child step applied to every context node, the results concatenated in context order. */
  function ChildStep(context: seq<ElementNode>, name: string): seq<ElementNode> {
    if context == [] then [] else ChildElements(context[0], name) + ChildStep(context[1..], name)
  }

  function Steps(context: seq<ElementNode>, names: seq<string>): seq<ElementNode>
    decreases |names|
  {
    if names == [] then context else Steps(ChildStep(context, names[0]), names[1..])
  }

  /**
   * The node set of the absolute location path `/path[0]/path[1]/...` in the document whose element
   * is `root`: the first step selects the document element when its name matches.
   */
  function SelectPath(root: ElementNode, path: seq<string>): seq<ElementNode>
    requires |path| > 0
  {
    Steps(if root.tag == path[0] then [root] else [], path[1..])
  }

  /** `/name` selects the document element alone when it is named `name`, and nothing otherwise. */
  lemma SelectRoot(root: ElementNode, name: string)
    ensures SelectPath(root, [name]) == if root.tag == name then [root] else []
    ensures |SelectPath(root, [name])| == 1 <==> root.tag == name
  {
  }

  /** `/name/child` selects the children of the document element named `child`, when it is named `name`. */
  lemma SelectChildren(root: ElementNode, name: string, child: string)
    ensures SelectPath(root, [name, child]) == if root.tag == name then ChildElements(root, child) else []
  {
    assert [name, child][1..] == [child];
    assert SelectPath(root, [name, child]) == Steps(if root.tag == name then [root] else [], [child]);
    if root.tag == name {
      assert Steps([root], [child]) == Steps(ChildStep([root], child), []);
      assert [root][1..] == [];
      assert ChildStep([root], child) == ChildElements(root, child) + ChildStep([], child);
      assert ChildElements(root, child) + [] == ChildElements(root, child);
    } else {
      assert Steps([], [child]) == Steps(ChildStep([], child), []);
    }
  }
}
