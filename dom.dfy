/**
  The document tree the cleaner and the optimizer work on: elements with an ordered list of
  attributes and an ordered list of children, and text nodes. Every node carries an `id`, the
  identity of the DOM object; a node is detached by id (`PruneDoc`) and its attributes or text are
  rewritten by id (`EditAttrsDoc`, `EditTextsDoc`). Document order is pre-order, the order of
  `querySelectorAll` and of a text `TreeWalker`. The serializer is a minimal deterministic one.
*/
module Dom {
  import opened Wrappers
  import opened Text

  datatype Attr = Attr(name: string, value: string)

  datatype Node =
    | Element(id: nat, tag: string, attrs: seq<Attr>, children: seq<Node>)
    | TextNode(id: nat, value: string)

  /** The DOM `Document` node, given by its children (the document element among them). */
  datatype Document = Document(nodes: seq<Node>)

  // ---------------------------------------------------------------- attributes

  /** `getAttribute(name)`: the value of the first attribute of that name, or `null`. */
  function GetAttr(attrs: seq<Attr>, name: string): Option<string>
  {
    if attrs == [] then None
    else if attrs[0].name == name then Some(attrs[0].value)
    else GetAttr(attrs[1..], name)
  }

  /** An attribute is found exactly when one of that name is present, and its value is one of them. */
  lemma {:induction false} GetAttrFacts(attrs: seq<Attr>, name: string)
    ensures GetAttr(attrs, name).Some? <==> exists i :: 0 <= i < |attrs| && attrs[i].name == name
    ensures GetAttr(attrs, name).Some? ==> Attr(name, GetAttr(attrs, name).value) in attrs
  {
    if attrs != [] && attrs[0].name != name {
      GetAttrFacts(attrs[1..], name);
      if GetAttr(attrs, name).Some? {
        var i :| 0 <= i < |attrs[1..]| && attrs[1..][i].name == name;
        assert attrs[i + 1].name == name;
      }
      forall i | 0 <= i < |attrs| && attrs[i].name == name
        ensures GetAttr(attrs, name).Some?
      {
        assert attrs[1..][i - 1].name == name;
      }
    }
  }

  predicate HasAttr(attrs: seq<Attr>, name: string)
  {
    GetAttr(attrs, name).Some?
  }

  /** Attribute names are unique on a DOM element. */
  predicate UniqueNames(attrs: seq<Attr>)
  {
    forall i, j :: 0 <= i < j < |attrs| ==> attrs[i].name != attrs[j].name
  }

  /**
    `setAttribute(name, value)`: the first attribute of that name takes the new value in place;
    without one, the attribute is appended.
  */
  function SetAttr(attrs: seq<Attr>, name: string, value: string): seq<Attr>
  {
    if attrs == [] then [Attr(name, value)]
    else if attrs[0].name == name then [Attr(name, value)] + attrs[1..]
    else [attrs[0]] + SetAttr(attrs[1..], name, value)
  }

  /**
    After `setAttribute(name, value)` the attribute reads `value` and every other reads as before;
    an existing attribute is replaced in place, a new one goes at the end.
  */
  lemma {:induction false} SetAttrFacts(attrs: seq<Attr>, name: string, value: string)
    ensures GetAttr(SetAttr(attrs, name, value), name) == Some(value)
    ensures forall other :: other != name ==> GetAttr(SetAttr(attrs, name, value), other) == GetAttr(attrs, other)
    ensures HasAttr(attrs, name) ==> |SetAttr(attrs, name, value)| == |attrs|
    ensures !HasAttr(attrs, name) ==> SetAttr(attrs, name, value) == attrs + [Attr(name, value)]
  {
    if attrs != [] && attrs[0].name != name {
      SetAttrFacts(attrs[1..], name, value);
      var r := SetAttr(attrs, name, value);
      assert r[0] == attrs[0] && r[1..] == SetAttr(attrs[1..], name, value);
      forall other | other != name
        ensures GetAttr(r, other) == GetAttr(attrs, other)
      {
        if attrs[0].name != other {
          assert GetAttr(r, other) == GetAttr(r[1..], other);
        }
      }
      if !HasAttr(attrs, name) {
        assert [attrs[0]] + (attrs[1..] + [Attr(name, value)]) == attrs + [Attr(name, value)];
      }
    } else if attrs != [] {
      var r := SetAttr(attrs, name, value);
      forall other | other != name
        ensures GetAttr(r, other) == GetAttr(attrs, other)
      {
        assert r[1..] == attrs[1..];
      }
    }
  }

  /** `removeAttribute(name)`: the first attribute of that name is dropped. */
  function RemoveAttr(attrs: seq<Attr>, name: string): seq<Attr>
  {
    if attrs == [] then []
    else if attrs[0].name == name then attrs[1..]
    else [attrs[0]] + RemoveAttr(attrs[1..], name)
  }

  /**
    After `removeAttribute(name)` every other attribute reads as before, `name` is gone when names
    are unique, and nothing new appears.
  */
  lemma {:induction false} RemoveAttrFacts(attrs: seq<Attr>, name: string)
    ensures forall other :: other != name ==> GetAttr(RemoveAttr(attrs, name), other) == GetAttr(attrs, other)
    ensures UniqueNames(attrs) ==> GetAttr(RemoveAttr(attrs, name), name) == None
    ensures forall a :: a in RemoveAttr(attrs, name) ==> a in attrs
  {
    if attrs == [] {
    } else if attrs[0].name == name {
      forall other | other != name
        ensures GetAttr(attrs[1..], other) == GetAttr(attrs, other)
      {
      }
      if UniqueNames(attrs) {
        forall i | 0 <= i < |attrs[1..]| ensures attrs[1..][i].name != name {
          assert attrs[1..][i] == attrs[i + 1];
        }
        GetAttrFacts(attrs[1..], name);
      }
    } else {
      RemoveAttrFacts(attrs[1..], name);
      var r := RemoveAttr(attrs, name);
      assert r[0] == attrs[0] && r[1..] == RemoveAttr(attrs[1..], name);
      forall other | other != name
        ensures GetAttr(r, other) == GetAttr(attrs, other)
      {
        if attrs[0].name != other {
          assert GetAttr(r, other) == GetAttr(r[1..], other);
        }
      }
      if UniqueNames(attrs) {
        assert UniqueNames(attrs[1..]) by {
          forall i, j | 0 <= i < j < |attrs[1..]| ensures attrs[1..][i].name != attrs[1..][j].name {
            assert attrs[1..][i] == attrs[i + 1] && attrs[1..][j] == attrs[j + 1];
          }
        }
        assert GetAttr(r, name) == GetAttr(r[1..], name);
      }
      forall a | a in r ensures a in attrs {
        if a != attrs[0] {
          assert a in r[1..];
        }
      }
    }
  }

  // ---------------------------------------------------------------- document order

  /** Every node of the subtree rooted at `n`, in document order. */
  function Nodes(n: Node): seq<Node>
  {
    match n
    case TextNode(_, _) => [n]
    case Element(_, _, _, cs) => [n] + NodesSeq(cs)
  }

  /** Every node of a forest, in document order. */
  function NodesSeq(cs: seq<Node>): seq<Node>
  {
    if cs == [] then [] else Nodes(cs[0]) + NodesSeq(cs[1..])
  }

  function Ids(s: seq<Node>): (r: seq<nat>)
    ensures |r| == |s| && forall i :: 0 <= i < |s| ==> r[i] == s[i].id
  {
    seq(|s|, i requires 0 <= i < |s| => s[i].id)
  }

  ghost predicate Distinct(s: seq<nat>)
  {
    forall x :: multiset(s)[x] <= 1
  }

  /** No two nodes of the forest are the same DOM object. */
  ghost predicate ValidForest(cs: seq<Node>)
  {
    Distinct(Ids(NodesSeq(cs)))
  }

  ghost predicate Valid(d: Document)
  {
    ValidForest(d.nodes)
  }

  /** The document element: the first element child of the document. */
  function DocumentElement(d: Document): (r: Option<Node>)
    ensures r.Some? ==> r.value.Element? && r.value in d.nodes
  {
    FirstElement(d.nodes)
  }

  function FirstElement(cs: seq<Node>): (r: Option<Node>)
    ensures r.Some? ==> r.value.Element? && r.value in cs
    ensures r.None? ==> forall c :: c in cs ==> c.TextNode?
  {
    if cs == [] then None
    else if cs[0].Element? then Some(cs[0])
    else FirstElement(cs[1..])
  }

  // ---------------------------------------------------------------- selectors

  /**
    The selectors the core passes to `querySelectorAll`: `*`, a type selector such as `path`,
    an attribute-presence selector such as `[style]`, `g:empty`, and `defs *[id]` (an element
    with the attribute strictly inside an element of the given type).
  */
  datatype Selector =
    | Universal
    | Type(tag: string)
    | WithAttr(name: string)
    | EmptyType(tag: string)
    | InsideWithAttr(ancestor: string, name: string)

  /**
    CSS `:empty`: no child except text nodes whose data is empty (comments, which would also
    not count, are not part of this tree).
  */
  predicate IsEmptyElement(e: Node)
    requires e.Element?
  {
    forall c :: c in e.children ==> c.TextNode? && c.value == []
  }

  /** Whether element `e` matches `sel`; `inside` says whether an ancestor of `e` has the selector's ancestor type. */
  predicate Matches(sel: Selector, e: Node, inside: bool)
    requires e.Element?
  {
    match sel
    case Universal => true
    case Type(t) => e.tag == t
    case WithAttr(a) => HasAttr(e.attrs, a)
    case EmptyType(t) => e.tag == t && IsEmptyElement(e)
    case InsideWithAttr(_, a) => inside && HasAttr(e.attrs, a)
  }

  predicate Enters(sel: Selector, tag: string)
  {
    sel.InsideWithAttr? && tag == sel.ancestor
  }

  function Select(n: Node, sel: Selector, inside: bool): seq<Node>
  {
    match n
    case TextNode(_, _) => []
    case Element(_, tag, _, cs) =>
      (if Matches(sel, n, inside) then [n] else []) + SelectSeq(cs, sel, inside || Enters(sel, tag))
  }

  /** The elements of a forest that match `sel`, in document order. */
  function SelectSeq(cs: seq<Node>, sel: Selector, inside: bool): seq<Node>
  {
    if cs == [] then [] else Select(cs[0], sel, inside) + SelectSeq(cs[1..], sel, inside)
  }

  /** `document.querySelectorAll(sel)`: a static snapshot, in document order. */
  function QuerySelectorAll(d: Document, sel: Selector): seq<Node>
  {
    SelectSeq(d.nodes, sel, false)
  }

  /** `document.querySelector(sel) !== null` */
  predicate HasMatch(d: Document, sel: Selector)
  {
    QuerySelectorAll(d, sel) != []
  }

  /** The text nodes of a forest in document order (a `TreeWalker` showing text). */
  function TextNodesSeq(cs: seq<Node>): seq<Node>
  {
    if cs == [] then []
    else
      (match cs[0]
       case TextNode(_, _) => [cs[0]]
       case Element(_, _, _, kids) => TextNodesSeq(kids))
      + TextNodesSeq(cs[1..])
  }

  /** `textContent`: the data of every text node in the subtree, concatenated. */
  function TextContent(n: Node): string
  {
    match n
    case TextNode(_, v) => v
    case Element(_, _, _, cs) => TextContentSeq(cs)
  }

  function TextContentSeq(cs: seq<Node>): string
  {
    if cs == [] then [] else TextContent(cs[0]) + TextContentSeq(cs[1..])
  }

  // ---------------------------------------------------------------- serialization

  function SerializeAttrs(attrs: seq<Attr>): string
  {
    if attrs == [] then []
    else " " + attrs[0].name + "=\"" + attrs[0].value + "\"" + SerializeAttrs(attrs[1..])
  }

  /** A minimal deterministic `XMLSerializer`: an element without children is written self-closed. */
  function Serialize(n: Node): string
  {
    match n
    case TextNode(_, v) => v
    case Element(_, tag, attrs, cs) =>
      if cs == [] then "<" + tag + SerializeAttrs(attrs) + "/>"
      else "<" + tag + SerializeAttrs(attrs) + ">" + SerializeSeq(cs) + "</" + tag + ">"
  }

  function SerializeSeq(cs: seq<Node>): string
  {
    if cs == [] then [] else Serialize(cs[0]) + SerializeSeq(cs[1..])
  }

  function SerializeDocument(d: Document): string
  {
    SerializeSeq(d.nodes)
  }

  // ---------------------------------------------------------------- detaching by id

  /** The forest with every node whose id is in `v` detached, together with its subtree. */
  function PruneSeq(cs: seq<Node>, v: set<nat>): (r: seq<Node>)
    ensures forall c :: c in r ==> c.id !in v
  {
    if cs == [] then []
    else if cs[0].id in v then PruneSeq(cs[1..], v)
    else [Prune(cs[0], v)] + PruneSeq(cs[1..], v)
  }

  function Prune(n: Node, v: set<nat>): (r: Node)
    ensures r.id == n.id && r.Element? == n.Element?
  {
    match n
    case TextNode(_, _) => n
    case Element(i, t, a, cs) => Element(i, t, a, PruneSeq(cs, v))
  }

  function PruneDoc(d: Document, v: set<nat>): Document
  {
    Document(PruneSeq(d.nodes, v))
  }

  // ---------------------------------------------------------------- rewriting by id

  function Lookup<T>(m: map<nat, T>, id: nat, default: T): T
  {
    if id in m then m[id] else default
  }

  /** Every element whose id is a key of `m` takes the attribute list `m` gives for it. */
  function EditAttrs(n: Node, m: map<nat, seq<Attr>>): (r: Node)
    ensures r.id == n.id && r.Element? == n.Element?
  {
    match n
    case TextNode(_, _) => n
    case Element(i, t, a, cs) => Element(i, t, Lookup(m, i, a), EditAttrsSeq(cs, m))
  }

  function EditAttrsSeq(cs: seq<Node>, m: map<nat, seq<Attr>>): (r: seq<Node>)
    ensures |r| == |cs|
  {
    if cs == [] then [] else [EditAttrs(cs[0], m)] + EditAttrsSeq(cs[1..], m)
  }

  function EditAttrsDoc(d: Document, m: map<nat, seq<Attr>>): Document
  {
    Document(EditAttrsSeq(d.nodes, m))
  }

  /** Every text node whose id is a key of `m` takes the data `m` gives for it. */
  function EditTexts(n: Node, m: map<nat, string>): (r: Node)
    ensures r.id == n.id && r.Element? == n.Element?
  {
    match n
    case TextNode(i, v) => TextNode(i, Lookup(m, i, v))
    case Element(i, t, a, cs) => Element(i, t, a, EditTextsSeq(cs, m))
  }

  function EditTextsSeq(cs: seq<Node>, m: map<nat, string>): (r: seq<Node>)
    ensures |r| == |cs|
  {
    if cs == [] then [] else [EditTexts(cs[0], m)] + EditTextsSeq(cs[1..], m)
  }

  function EditTextsDoc(d: Document, m: map<nat, string>): Document
  {
    Document(EditTextsSeq(d.nodes, m))
  }

  /** Every element's attribute list rewritten by `f`, which sees the element's tag. */
  function MapAttrs(n: Node, f: (string, seq<Attr>) -> seq<Attr>): (r: Node)
    ensures r.id == n.id
  {
    match n
    case TextNode(_, _) => n
    case Element(i, t, a, cs) => Element(i, t, f(t, a), MapAttrsSeq(cs, f))
  }

  function MapAttrsSeq(cs: seq<Node>, f: (string, seq<Attr>) -> seq<Attr>): (r: seq<Node>)
    ensures |r| == |cs|
  {
    if cs == [] then [] else [MapAttrs(cs[0], f)] + MapAttrsSeq(cs[1..], f)
  }

  function MapAttrsDoc(d: Document, f: (string, seq<Attr>) -> seq<Attr>): Document
  {
    Document(MapAttrsSeq(d.nodes, f))
  }

  /**
    The attribute rewrites a pass makes while visiting the snapshot `els[..n]`: every element for
    which `touched` holds takes the attributes `f` computes for it.
  */
  function PatchOf(els: seq<Node>, n: nat, f: (string, seq<Attr>) -> seq<Attr>,
                   touched: (string, seq<Attr>) -> bool): map<nat, seq<Attr>>
    requires n <= |els|
  {
    if n == 0 then map[]
    else
      var m := PatchOf(els, n - 1, f, touched);
      var e := els[n - 1];
      if e.Element? && touched(e.tag, e.attrs) then m[e.id := f(e.tag, e.attrs)] else m
  }

  /**
    The text rewrites a pass makes while visiting `ts[..n]`: every node for which `p` holds takes
    the data `g` computes for it.
  */
  function TextPatchOf(ts: seq<Node>, n: nat, p: Node -> bool, g: Node -> string): map<nat, string>
    requires n <= |ts|
  {
    if n == 0 then map[]
    else
      var m := TextPatchOf(ts, n - 1, p, g);
      if p(ts[n - 1]) then m[ts[n - 1].id := g(ts[n - 1])] else m
  }

  /** The filter of a pass that detaches every node it visits. */
  predicate Always(n: Node)
  {
    true
  }

  /** The ids of the nodes of `els[..n]` that satisfy `p`: what a pass detaching those nodes removes. */
  function IdsWhere(els: seq<Node>, n: nat, p: Node -> bool): set<nat>
    requires n <= |els|
  {
    if n == 0 then {} else IdsWhere(els, n - 1, p) + (if p(els[n - 1]) then {els[n - 1].id} else {})
  }

  /** How many nodes of `els[..n]` satisfy `p`: the counter of such a pass. */
  function CountWhere(els: seq<Node>, n: nat, p: Node -> bool): nat
    requires n <= |els|
  {
    if n == 0 then 0 else CountWhere(els, n - 1, p) + (if p(els[n - 1]) then 1 else 0)
  }

  /** The union of `g` over the nodes of `els[..n]`. */
  function UnionOver<T>(els: seq<Node>, n: nat, g: Node -> set<T>): set<T>
    requires n <= |els|
  {
    if n == 0 then {} else UnionOver(els, n - 1, g) + g(els[n - 1])
  }

  /** The attributes of an element, and none for a text node. */
  function AttrsOf(n: Node): seq<Attr>
  {
    if n.Element? then n.attrs else []
  }

  // ---------------------------------------------------------------- the mutable document

  /**
    `DOMParser.parseFromString(text, 'image/svg+xml')`: the document, or the exception a DOM
    implementation may throw. Its internals are not modelled.
  */
  type Parser = string -> Outcome<Document>

  /** The parser creates a fresh object for every node of the document it returns for `s`. */
  ghost predicate ParsesFresh(parse: Parser, s: string)
  {
    parse(s).Returned? ==> Valid(parse(s).value)
  }

  /** A parsed document, which the passes update in place. */
  class DomDocument {
    var tree: Document

    constructor(t: Document)
      ensures tree == t
    {
      tree := t;
    }

    /** `node.parentNode.removeChild(node)` */
    method RemoveNode(id: nat)
      modifies this
      ensures tree == PruneDoc(old(tree), {id})
    {
      tree := PruneDoc(tree, {id});
    }

    /** The attribute list of element `id` after one or more `setAttribute` / `removeAttribute` calls. */
    method SetAttributes(id: nat, attrs: seq<Attr>)
      modifies this
      ensures tree == EditAttrsDoc(old(tree), map[id := attrs])
    {
      tree := EditAttrsDoc(tree, map[id := attrs]);
    }

    /** `textNode.nodeValue = value` */
    method SetNodeValue(id: nat, value: string)
      modifies this
      ensures tree == EditTextsDoc(old(tree), map[id := value])
    {
      tree := EditTextsDoc(tree, map[id := value]);
    }
  }
}
