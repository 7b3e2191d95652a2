/** The parsed HTML document the checkers walk: a tree of elements, each with a tag, its
    attributes in source order and its children, and text nodes. The parser itself
    (JSDOM, parse5) is outside the model; only tag, attribute and descendant search are. */
module Dom {
  import opened Wrappers
  import opened Text

  datatype Attr = Attr(name: string, value: string)

  datatype Node =
    | Element(tag: string, attrs: seq<Attr>, children: seq<Node>)
    | TextNode(text: string)

  /** `getAttribute(name)`: the value of the first attribute with that name. */
  function GetAttr(attrs: seq<Attr>, name: string): Option<string> {
    if attrs == [] then None
    else if attrs[0].name == name then Some(attrs[0].value)
    else GetAttr(attrs[1..], name)
  }

  /** `getAttribute` finds nothing exactly when no attribute has the name, and what it finds is
      the value of an attribute with that name. */
  lemma {:induction false} GetAttrFound(attrs: seq<Attr>, name: string)
    ensures GetAttr(attrs, name).None? <==> forall i :: 0 <= i < |attrs| ==> attrs[i].name != name
    ensures GetAttr(attrs, name).Some? ==>
      exists i :: 0 <= i < |attrs| && attrs[i] == Attr(name, GetAttr(attrs, name).value)
  {
    if attrs != [] && attrs[0].name != name {
      GetAttrFound(attrs[1..], name);
      if GetAttr(attrs, name).Some? {
        var i :| 0 <= i < |attrs[1..]| && attrs[1..][i] == Attr(name, GetAttr(attrs, name).value);
        assert attrs[i + 1] == attrs[1..][i];
      }
      assert forall i :: 1 <= i < |attrs| ==> attrs[i] == attrs[1..][i - 1];
    }
  }

  /** `hasAttribute(name)`. */
  predicate HasAttr(attrs: seq<Attr>, name: string) {
    GetAttr(attrs, name).Some?
  }

  /** A truthy attribute: present and not the empty string (`if (el.getAttribute(name))`). */
  predicate HasValue(attrs: seq<Attr>, name: string) {
    GetAttr(attrs, name).Some? && GetAttr(attrs, name).value != ""
  }

  /** Every element of the subtree rooted at `n`, `n` first, in document (pre-)order. */
  function Elements(n: Node): (r: seq<Node>)
    decreases n, 1
    ensures forall i :: 0 <= i < |r| ==> r[i].Element?
    ensures n.Element? ==> |r| > 0 && r[0] == n
    ensures n.TextNode? ==> r == []
  {
    match n
    case TextNode(_) => []
    case Element(_, _, children) => [n] + ElementsIn(children)
  }

  function ElementsIn(ns: seq<Node>): (r: seq<Node>)
    decreases ns, 0
    ensures forall i :: 0 <= i < |r| ==> r[i].Element?
  {
    if ns == [] then [] else Elements(ns[0]) + ElementsIn(ns[1..])
  }

  /** The elements strictly inside `n`, in document order (`n.querySelectorAll('*')`). */
  function Descendants(n: Node): seq<Node> {
    if n.TextNode? then [] else ElementsIn(n.children)
  }

  /** The members of `nodes` with the given tag, in order. */
  function WithTag(nodes: seq<Node>, tag: string): (r: seq<Node>)
    ensures |r| <= |nodes|
    ensures forall i :: 0 <= i < |r| ==> r[i] in nodes && r[i].Element? && r[i].tag == tag
    ensures (exists i :: 0 <= i < |nodes| && nodes[i].Element? && nodes[i].tag == tag) ==> r != []
  {
    if nodes == [] then []
    else if nodes[0].Element? && nodes[0].tag == tag then [nodes[0]] + WithTag(nodes[1..], tag)
    else WithTag(nodes[1..], tag)
  }

  /** A node is among those `WithTag` keeps exactly when it is an element of `nodes` with the tag. */
  lemma {:induction false} WithTagMembers(nodes: seq<Node>, tag: string, x: Node)
    ensures x in WithTag(nodes, tag) <==> x in nodes && x.Element? && x.tag == tag
  {
    if nodes != [] {
      WithTagMembers(nodes[1..], tag, x);
      assert nodes == [nodes[0]] + nodes[1..];
    }
  }

  lemma {:induction false} WithTagAppend(a: seq<Node>, b: seq<Node>, tag: string)
    ensures WithTag(a + b, tag) == WithTag(a, tag) + WithTag(b, tag)
  {
    if a != [] {
      assert (a + b)[1..] == a[1..] + b;
      WithTagAppend(a[1..], b, tag);
    } else {
      assert a + b == b;
    }
  }

  /** The elements of the first `k + 1` children are those of the first `k` and then those of the next. */
  lemma {:induction false} ElementsInSnoc(ns: seq<Node>, k: nat)
    requires k < |ns|
    ensures ElementsIn(ns[..k + 1]) == ElementsIn(ns[..k]) + Elements(ns[k])
  {
    if k == 0 {
      assert ns[..1][1..] == [];
    } else {
      assert ns[..k + 1][1..] == ns[1..][..k];
      assert ns[..k][1..] == ns[1..][..k - 1];
      ElementsInSnoc(ns[1..], k - 1);
    }
  }

  /** An element of the subtree is the root or an element of the subtree of one of its children. */
  lemma ElementsMembers(n: Node, x: Node)
    ensures x in Elements(n) <==>
      n.Element? && (x == n || exists i :: 0 <= i < |n.children| && x in Elements(n.children[i]))
  {
    if n.Element? {
      ElementsInMembers(n.children, x);
    }
  }

  lemma {:induction false} ElementsInMembers(ns: seq<Node>, x: Node)
    ensures x in ElementsIn(ns) <==> exists i :: 0 <= i < |ns| && x in Elements(ns[i])
    decreases |ns|
  {
    if ns != [] {
      ElementsInMembers(ns[1..], x);
      if exists i :: 0 <= i < |ns| && x in Elements(ns[i]) {
        var i :| 0 <= i < |ns| && x in Elements(ns[i]);
        if i > 0 {
          assert ns[1..][i - 1] == ns[i];
        }
      }
      if exists i :: 0 <= i < |ns[1..]| && x in Elements(ns[1..][i]) {
        var i :| 0 <= i < |ns[1..]| && x in Elements(ns[1..][i]);
        assert ns[1..][i] == ns[i + 1];
      }
    }
  }

  /** Document order: the elements of consecutive siblings come in sibling order. */
  lemma {:induction false} ElementsInAppend(a: seq<Node>, b: seq<Node>)
    ensures ElementsIn(a + b) == ElementsIn(a) + ElementsIn(b)
    decreases |a|
  {
    if a != [] {
      assert (a + b)[1..] == a[1..] + b;
      ElementsInAppend(a[1..], b);
    } else {
      assert a + b == b;
    }
  }

  /** The members of `nodes` carrying the attribute, in order (`querySelectorAll('[name]')`). */
  function WithAttr(nodes: seq<Node>, name: string): (r: seq<Node>)
    ensures |r| <= |nodes|
    ensures forall i :: 0 <= i < |r| ==> r[i] in nodes && r[i].Element? && HasAttr(r[i].attrs, name)
    ensures forall i :: 0 <= i < |nodes| && nodes[i].Element? && HasAttr(nodes[i].attrs, name) ==> nodes[i] in r
  {
    assert forall i :: 0 < i < |nodes| ==> nodes[i] == nodes[1..][i - 1];
    if nodes == [] then []
    else if nodes[0].Element? && HasAttr(nodes[0].attrs, name) then [nodes[0]] + WithAttr(nodes[1..], name)
    else WithAttr(nodes[1..], name)
  }

  /** The attributes of an element; a text node has none. */
  function AttrsOf(n: Node): seq<Attr> {
    if n.Element? then n.attrs else []
  }

  /** The members of `nodes` whose attribute `name` is exactly `value` (`[name="value"]`). */
  function WithAttrValue(nodes: seq<Node>, name: string, value: string): (r: seq<Node>)
    ensures |r| <= |nodes|
    ensures forall i :: 0 <= i < |r| ==> r[i] in nodes && r[i].Element? && GetAttr(r[i].attrs, name) == Some(value)
    ensures forall i :: 0 <= i < |nodes| && nodes[i].Element? && GetAttr(nodes[i].attrs, name) == Some(value) ==> nodes[i] in r
  {
    assert forall i :: 0 < i < |nodes| ==> nodes[i] == nodes[1..][i - 1];
    if nodes == [] then []
    else if nodes[0].Element? && GetAttr(nodes[0].attrs, name) == Some(value) then [nodes[0]] + WithAttrValue(nodes[1..], name, value)
    else WithAttrValue(nodes[1..], name, value)
  }

  /** An element whose attribute `name` equals `value` up to ASCII case (`value` is written in
      lower case). */
  predicate AttrFolds(n: Node, name: string, value: string) {
    n.Element? && GetAttr(n.attrs, name).Some? && Lower(GetAttr(n.attrs, name).value) == value
  }

  /** The elements matching `[name="value"]` for an attribute whose value HTML compares ASCII
      case-insensitively in a selector, such as `rel`: `rel="Icon"` matches `[rel="icon"]`. */
  function WithAttrFolded(nodes: seq<Node>, name: string, value: string): (r: seq<Node>)
    ensures |r| <= |nodes|
    ensures forall i :: 0 <= i < |r| ==> r[i] in nodes && AttrFolds(r[i], name, value)
    ensures forall i :: 0 <= i < |nodes| && AttrFolds(nodes[i], name, value) ==> nodes[i] in r
  {
    assert forall i :: 0 < i < |nodes| ==> nodes[i] == nodes[1..][i - 1];
    if nodes == [] then []
    else if AttrFolds(nodes[0], name, value) then [nodes[0]] + WithAttrFolded(nodes[1..], name, value)
    else WithAttrFolded(nodes[1..], name, value)
  }

  /** Filtering two lists in turn keeps the order: the kept members of `a` come first. */
  lemma {:induction false} WithAttrAppend(a: seq<Node>, b: seq<Node>, name: string)
    ensures WithAttr(a + b, name) == WithAttr(a, name) + WithAttr(b, name)
    decreases |a|
  {
    if a != [] {
      assert (a + b)[0] == a[0];
      assert (a + b)[1..] == a[1..] + b;
      WithAttrAppend(a[1..], b, name);
      var rest := WithAttr(a[1..], name) + WithAttr(b, name);
      if a[0].Element? && HasAttr(a[0].attrs, name) {
        calc {
          WithAttr(a + b, name);
          [a[0]] + rest;
          ([a[0]] + WithAttr(a[1..], name)) + WithAttr(b, name);
        }
      } else {
        assert WithAttr(a + b, name) == rest;
      }
    } else {
      assert a + b == b;
    }
  }

  lemma {:induction false} WithAttrValueAppend(a: seq<Node>, b: seq<Node>, name: string, value: string)
    ensures WithAttrValue(a + b, name, value) == WithAttrValue(a, name, value) + WithAttrValue(b, name, value)
    decreases |a|
  {
    if a != [] {
      assert (a + b)[0] == a[0];
      assert (a + b)[1..] == a[1..] + b;
      WithAttrValueAppend(a[1..], b, name, value);
      var rest := WithAttrValue(a[1..], name, value) + WithAttrValue(b, name, value);
      if a[0].Element? && GetAttr(a[0].attrs, name) == Some(value) {
        calc {
          WithAttrValue(a + b, name, value);
          [a[0]] + rest;
          ([a[0]] + WithAttrValue(a[1..], name, value)) + WithAttrValue(b, name, value);
        }
      } else {
        assert WithAttrValue(a + b, name, value) == rest;
      }
    } else {
      assert a + b == b;
    }
  }

  /** The first of `nodes`, if any (`querySelector` after filtering in document order). */
  function First(nodes: seq<Node>): (r: Option<Node>)
    ensures r.None? <==> nodes == []
    ensures r.Some? ==> r.value == nodes[0]
  {
    if nodes == [] then None else Some(nodes[0])
  }

  /** `querySelectorAll(tag)` on a document whose root is `doc`. */
  function QueryAll(doc: Node, tag: string): seq<Node> {
    WithTag(Elements(doc), tag)
  }

  /** `querySelector(tag)`: the first element with that tag, in document order. */
  function Query(doc: Node, tag: string): (r: Option<Node>)
    ensures r.Some? ==> r.value.Element? && r.value.tag == tag
    ensures r.None? <==> forall i :: 0 <= i < |Elements(doc)| ==> Elements(doc)[i].tag != tag
    ensures r.Some? ==> exists i :: FirstWithTag(Elements(doc), tag, i) && Elements(doc)[i] == r.value
  {
    var all := QueryAll(doc, tag);
    if all == [] then None
    else
      WithTagFirst(Elements(doc), tag);
      Some(all[0])
  }

  /** Position `i` holds the first element of `nodes` with the tag. */
  predicate FirstWithTag(nodes: seq<Node>, tag: string, i: int) {
    && 0 <= i < |nodes| && nodes[i].Element? && nodes[i].tag == tag
    && forall j :: 0 <= j < i ==> !(nodes[j].Element? && nodes[j].tag == tag)
  }

  /** The first member `WithTag` keeps is the first member of `nodes` with the tag. */
  lemma {:induction false} WithTagFirst(nodes: seq<Node>, tag: string)
    requires WithTag(nodes, tag) != []
    ensures exists i :: FirstWithTag(nodes, tag, i) && nodes[i] == WithTag(nodes, tag)[0]
  {
    if nodes[0].Element? && nodes[0].tag == tag {
      assert FirstWithTag(nodes, tag, 0);
    } else {
      WithTagFirst(nodes[1..], tag);
      var i :| FirstWithTag(nodes[1..], tag, i) && nodes[1..][i] == WithTag(nodes[1..], tag)[0];
      assert nodes[i + 1] == nodes[1..][i];
      forall j | 0 <= j < i + 1
        ensures !(nodes[j].Element? && nodes[j].tag == tag)
      {
        if j > 0 {
          assert nodes[j] == nodes[1..][j - 1];
        }
      }
      assert FirstWithTag(nodes, tag, i + 1);
    }
  }

  /** `textContent`: the text of every text node in the subtree, concatenated in order. */
  function TextContent(n: Node): string
    decreases n, 1
  {
    match n
    case TextNode(t) => t
    case Element(_, _, children) => TextContentIn(children)
  }

  function TextContentIn(ns: seq<Node>): string
    decreases ns, 0
  {
    if ns == [] then "" else TextContent(ns[0]) + TextContentIn(ns[1..])
  }

  /** `children.length`: the number of element children. */
  function ElementChildCount(ns: seq<Node>): (r: nat)
    ensures r <= |ns|
  {
    if ns == [] then 0 else (if ns[0].Element? then 1 else 0) + ElementChildCount(ns[1..])
  }

  /** The tags the HTML fragment serialisation algorithm writes without an end tag: the void
      elements and the legacy `basefont`, `bgsound`, `frame` and `keygen`. */
  const VoidTags: seq<string> :=
    ["area", "base", "basefont", "bgsound", "br", "col", "embed", "frame", "hr", "img", "input",
     "keygen", "link", "meta", "param", "source", "track", "wbr"]

  function AttrsText(attrs: seq<Attr>): string {
    if attrs == [] then "" else " " + attrs[0].name + "=\"" + attrs[0].value + "\"" + AttrsText(attrs[1..])
  }

  /** The start tag rebuilt from a tag name and its attributes: `<tag a="v" b="w">`. */
  function OpenTag(tag: string, attrs: seq<Attr>): (r: string)
    ensures StartsWith(r, "<" + tag) && |r| > 0 && r[|r| - 1] == '>'
  {
    var r := "<" + tag + AttrsText(attrs) + ">";
    assert r[..|"<" + tag|] == "<" + tag;
    r
  }

  /** The elements whose text children the HTML serialiser writes out unescaped. */
  const RawTextTags: seq<string> := ["style", "script", "xmp", "iframe", "noembed", "noframes", "plaintext"]

  const NoBreakSpace: char := '\U{00A0}'

  /** An attribute value as the serialiser writes it: `&`, the no-break space and `"` become
      `&amp;`, `&nbsp;` and `&quot;`. */
  function EscapeAttr(s: string): (r: string)
    ensures '"' !in r
    ensures '&' !in s && NoBreakSpace !in s && '"' !in s ==> r == s
  {
    if s == [] then []
    else
      var c := s[0];
      (if c == '&' then "&amp;" else if c == NoBreakSpace then "&nbsp;" else if c == '"' then "&quot;" else [c])
      + EscapeAttr(s[1..])
  }

  /** Text as the serialiser writes it: `&`, the no-break space, `<` and `>` become `&amp;`,
      `&nbsp;`, `&lt;` and `&gt;`. */
  function EscapeText(s: string): (r: string)
    ensures '<' !in r && '>' !in r
    ensures '&' !in s && NoBreakSpace !in s && '<' !in s && '>' !in s ==> r == s
  {
    if s == [] then []
    else
      var c := s[0];
      (if c == '&' then "&amp;" else if c == NoBreakSpace then "&nbsp;"
       else if c == '<' then "&lt;" else if c == '>' then "&gt;" else [c])
      + EscapeText(s[1..])
  }

  /** The attributes of a start tag as the serialiser writes them. */
  function SerializedAttrs(attrs: seq<Attr>): string {
    if attrs == [] then "" else " " + attrs[0].name + "=\"" + EscapeAttr(attrs[0].value) + "\"" + SerializedAttrs(attrs[1..])
  }

  /** `outerHTML`: the serialisation of the element and everything inside it. */
  function OuterHtml(n: Node): string
    decreases n, 1
  {
    match n
    case TextNode(t) => EscapeText(t)
    case Element(tag, attrs, children) =>
      "<" + tag + SerializedAttrs(attrs) + ">"
      + (if tag in VoidTags then "" else InnerHtml(tag, children) + "</" + tag + ">")
  }

  /** One child of an element with tag `parent`: text is escaped unless the parent holds raw
      text. */
  function ChildHtml(parent: string, n: Node): string
    decreases n, 2
  {
    match n
    case TextNode(t) => if parent in RawTextTags then t else EscapeText(t)
    case Element(_, _, _) => OuterHtml(n)
  }

  function InnerHtml(parent: string, ns: seq<Node>): string
    decreases ns, 0
  {
    if ns == [] then "" else ChildHtml(parent, ns[0]) + InnerHtml(parent, ns[1..])
  }

  /** An element's serialisation starts with its start tag, whose attribute values cannot end
      early: no value holds a `"`. */
  lemma OuterHtmlStart(n: Node)
    requires n.Element?
    ensures StartsWith(OuterHtml(n), "<" + n.tag + SerializedAttrs(n.attrs) + ">")
  {
    var o := "<" + n.tag + SerializedAttrs(n.attrs) + ">";
    assert OuterHtml(n)[..|o|] == o;
  }

  /** The tokens of the class attribute (`classList`): split at ASCII white space only, so a
      no-break space stays inside a token. */
  function ClassList(attrs: seq<Attr>): (r: seq<string>)
    ensures GetAttr(attrs, "class").None? ==> r == []
    ensures GetAttr(attrs, "class").Some? ==> Concat(r) == DropAsciiSpaces(GetAttr(attrs, "class").value)
    ensures forall i, j :: 0 <= i < |r| && 0 <= j < |r[i]| ==> !IsAsciiSpace(r[i][j])
    ensures forall i :: 0 <= i < |r| ==> r[i] != []
  {
    match GetAttr(attrs, "class")
    case None => []
    case Some(v) => AsciiTokens(v)
  }

  /** A class value joined by a no-break space is one token: `box\u00A0visually-hidden` does
      not carry the `visually-hidden` class. */
  lemma NoBreakSpaceJoins(attrs: seq<Attr>)
    requires GetAttr(attrs, "class") == Some("box" + [NoBreakSpace] + "visually-hidden")
    ensures ClassList(attrs) == ["box" + [NoBreakSpace] + "visually-hidden"]
    ensures "visually-hidden" !in ClassList(attrs)
  {
    var v := "box" + [NoBreakSpace] + "visually-hidden";
    assert forall i :: 0 <= i < |v| ==> !IsAsciiSpace(v[i]) by {
      assert forall i :: 0 <= i < |v| ==> v[i] >= '-';
    }
    assert AsciiTokens(v) == [v] by {
      AsciiTokensWord(v);
    }
  }

  function NonEmpty(parts: seq<string>): (r: seq<string>)
    ensures forall i :: 0 <= i < |r| ==> r[i] != "" && r[i] in parts
    ensures forall i :: 0 <= i < |parts| && parts[i] != "" ==> parts[i] in r
  {
    if parts == [] then []
    else if parts[0] == "" then NonEmpty(parts[1..])
    else [parts[0]] + NonEmpty(parts[1..])
  }
}
