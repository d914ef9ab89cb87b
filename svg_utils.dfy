/**
  The SVG utilities: `validateSvg` checks an upload before anything else is done with it,
  `optimizeSvg` runs four light clean-ups over a parsed document in place, and `analyzeSvg`
  reports element counts. Each of them parses the text with a `Parser` the caller supplies, and
  an exception anywhere inside is caught: validation reports it, optimization hands back the
  input unchanged, and analysis yields nothing.
*/
module SvgUtils {
  import opened Wrappers
  import opened Text
  import opened Dom
  import opened DomFacts
  import opened AttrStripping

  // ---------------------------------------------------------------- validateSvg

  datatype ValidationResult = ValidationResult(isValid: bool, error: Option<string>)

  function Invalid(message: string): ValidationResult
  {
    ValidationResult(false, Some(message))
  }

  const EmptyContentError := "SVG content is empty"
  const XmlParsingError := "Invalid SVG format: XML parsing error"
  const RootNotSvgError := "Root element is not an SVG"
  const SizingError := "SVG missing required viewBox or width/height attributes"
  const ParseFailurePrefix := "Failed to parse SVG: "

  /** What reading `nodeName` of a missing document element throws. */
  const NullRootMessage := "Cannot read properties of null (reading 'nodeName')"

  /** A root that states its size: a `viewBox`, or both a `width` and a `height`. */
  predicate IsSized(root: Node)
    requires root.Element?
  {
    HasAttr(root.attrs, "viewBox") || (HasAttr(root.attrs, "width") && HasAttr(root.attrs, "height"))
  }

  function ValidateSvg(content: string, parse: Parser): (r: ValidationResult)
    ensures r.isValid <==> r.error.None?
  {
    if Trim(content) == [] then Invalid(EmptyContentError)
    else
      match parse(content)
      case Threw(m) => Invalid(ParseFailurePrefix + m)
      case Returned(d) =>
        if HasMatch(d, Type("parsererror")) then Invalid(XmlParsingError)
        else
          match DocumentElement(d)
          case None => Invalid(ParseFailurePrefix + NullRootMessage)
          case Some(root) =>
            if root.tag != "svg" then Invalid(RootNotSvgError)
            else if !HasAttr(root.attrs, "viewBox") &&
                    (!HasAttr(root.attrs, "width") || !HasAttr(root.attrs, "height")) then Invalid(SizingError)
            else ValidationResult(true, None)
  }

  /** Empty or all-whitespace content is rejected before it is parsed. */
  lemma BlankIsEmptyError(content: string, parse: Parser)
    requires IsBlank(content)
    ensures ValidateSvg(content, parse) == Invalid(EmptyContentError)
  {
    TrimEmptyIffBlank(content);
  }

  /**
    Content is valid exactly when it is not blank, parses without a `parsererror` element, and has
    an `svg` document element that states its size.
  */
  lemma ValidIff(content: string, parse: Parser)
    ensures ValidateSvg(content, parse).isValid <==>
      !IsBlank(content) && parse(content).Returned? && !HasMatch(parse(content).value, Type("parsererror")) &&
      DocumentElement(parse(content).value).Some? && DocumentElement(parse(content).value).value.tag == "svg" &&
      IsSized(DocumentElement(parse(content).value).value)
  {
    TrimEmptyIffBlank(content);
  }

  /** A well-formed document whose root element is not `svg` is rejected with the root message. */
  lemma RootNotSvgIsError(content: string, parse: Parser, d: Document)
    requires !IsBlank(content) && parse(content) == Returned(d) && !HasMatch(d, Type("parsererror"))
    requires DocumentElement(d).Some? && DocumentElement(d).value.tag != "svg"
    ensures ValidateSvg(content, parse) == Invalid(RootNotSvgError)
  {
    TrimEmptyIffBlank(content);
  }

  /** Once the root is an `svg` element, validity is exactly its sizing; otherwise the sizing message. */
  lemma SizingIff(content: string, parse: Parser, d: Document)
    requires !IsBlank(content) && parse(content) == Returned(d) && !HasMatch(d, Type("parsererror"))
    requires DocumentElement(d).Some? && DocumentElement(d).value.tag == "svg"
    ensures ValidateSvg(content, parse).isValid <==> IsSized(DocumentElement(d).value)
    ensures !IsSized(DocumentElement(d).value) ==> ValidateSvg(content, parse) == Invalid(SizingError)
  {
    TrimEmptyIffBlank(content);
  }

  // ---------------------------------------------------------------- optimizeSvg


  /** `node.hasChildNodes()` */
  predicate HasChildNodes(n: Node)
  {
    n.Element? && n.children != []
  }

  predicate Childless(n: Node)
  {
    !HasChildNodes(n)
  }

  /** Every element named `comment` detached (the selector names an element type, not XML comments). */
  function WithoutComments(d: Document): Document
  {
    var cs := QuerySelectorAll(d, Type("comment"));
    PruneDoc(d, IdsWhere(cs, |cs|, Always))
  }

  /** Every `g` that is `:empty` in `d` detached. */
  function WithoutEmptyGroups(d: Document): Document
  {
    var gs := QuerySelectorAll(d, EmptyType("g"));
    PruneDoc(d, IdsWhere(gs, |gs|, Always))
  }

  /** Every `defs` without child nodes in `d` detached. */
  function WithoutEmptyDefs(d: Document): Document
  {
    var ds := QuerySelectorAll(d, Type("defs"));
    PruneDoc(d, IdsWhere(ds, |ds|, Childless))
  }

  /** Every element's `data-*` and Figma attributes removed. */
  function WithoutExtraAttrs(d: Document): Document
  {
    MapAttrsDoc(d, StrippedAttrs)
  }

  function Optimized(d: Document): Document
  {
    WithoutExtraAttrs(WithoutEmptyDefs(WithoutEmptyGroups(WithoutComments(d))))
  }

  /** What `optimizeSvg` returns for `content`, given what the parser makes of it. */
  function OptimizeOutcome(parsed: Outcome<Document>, content: string): string
  {
    match parsed
    case Threw(_) => content
    case Returned(d) => SerializeDocument(Optimized(d))
  }

  method OptimizeSvg(content: string, parse: Parser) returns (optimized: string)
    requires ParsesFresh(parse, content)
    ensures optimized == OptimizeOutcome(parse(content), content)
  {
    var parsed := parse(content);
    if parsed.Threw? {
      return content;
    }
    var svgDoc := new DomDocument(parsed.value);
    RemoveAll(svgDoc, Type("comment"));
    RemoveAll(svgDoc, EmptyType("g"));
    RemoveChildlessDefs(svgDoc);
    StripAttributes(svgDoc);
    return SerializeDocument(svgDoc.tree);
  }

  /** Detaches every element of the snapshot `querySelectorAll(sel)`. */
  method RemoveAll(svgDoc: DomDocument, sel: Selector)
    requires Valid(svgDoc.tree)
    modifies svgDoc
    ensures var els := QuerySelectorAll(old(svgDoc.tree), sel);
      svgDoc.tree == PruneDoc(old(svgDoc.tree), IdsWhere(els, |els|, Always))
    ensures Valid(svgDoc.tree)
  {
    ghost var d0 := svgDoc.tree;
    NothingDoc(d0);
    var els := QuerySelectorAll(svgDoc.tree, sel);
    var i := 0;
    while i < |els|
      invariant i <= |els|
      invariant svgDoc.tree == PruneDoc(d0, IdsWhere(els, i, Always))
    {
      PruneWhereStep(d0, els, i, Always);
      svgDoc.RemoveNode(els[i].id);
      i := i + 1;
    }
    PruneDocValid(d0, IdsWhere(els, i, Always));
  }

  /** Detaches every `defs` element of the snapshot that has no child nodes. */
  method RemoveChildlessDefs(svgDoc: DomDocument)
    requires Valid(svgDoc.tree)
    modifies svgDoc
    ensures svgDoc.tree == WithoutEmptyDefs(old(svgDoc.tree)) && Valid(svgDoc.tree)
  {
    ghost var d0 := svgDoc.tree;
    NothingDoc(d0);
    var defs := QuerySelectorAll(svgDoc.tree, Type("defs"));
    var i := 0;
    while i < |defs|
      invariant i <= |defs|
      invariant svgDoc.tree == PruneDoc(d0, IdsWhere(defs, i, Childless))
    {
      PruneWhereStep(d0, defs, i, Childless);
      var def := defs[i];
      if !HasChildNodes(def) {
        svgDoc.RemoveNode(def.id);
      }
      i := i + 1;
    }
    PruneDocValid(d0, IdsWhere(defs, i, Childless));
  }

  /** Removes the `data-*` and Figma attributes of every element. */
  method StripAttributes(svgDoc: DomDocument)
    requires Valid(svgDoc.tree)
    modifies svgDoc
    ensures svgDoc.tree == WithoutExtraAttrs(old(svgDoc.tree)) && Valid(svgDoc.tree)
  {
    ghost var d0 := svgDoc.tree;
    NothingDoc(d0);
    var allElements := QuerySelectorAll(svgDoc.tree, Universal);
    var i := 0;
    while i < |allElements|
      invariant i <= |allElements|
      invariant svgDoc.tree == EditAttrsDoc(d0, PatchOf(allElements, i, StrippedAttrs, Strippable))
    {
      var el := allElements[i];
      SnapshotAt(d0, Universal, i);
      PatchOfDocStep(d0, allElements, i, StrippedAttrs, Strippable);
      StripElement(svgDoc, el, FigmaAttributes);
      i := i + 1;
    }
    SnapshotPatchIsMap(d0, Universal, StrippedAttrs, Strippable);
    MapAttrsDocValid(d0, StrippedAttrs);
  }

  /**
    The attribute step for one element: walks a snapshot of its attribute list removing every
    `data-*` name, then removes each of `names` the live list still has.
  */
  method StripElement(svgDoc: DomDocument, element: Node, names: seq<string>)
    requires element.Element?
    modifies svgDoc
    ensures var stripped := Stripping(element.attrs, names);
      svgDoc.tree == if stripped != element.attrs then EditAttrsDoc(old(svgDoc.tree), map[element.id := stripped])
                     else old(svgDoc.tree)
  {
    ghost var d0 := svgDoc.tree;
    var attributes := element.attrs;
    // the element's live attribute list
    var current := StripData(svgDoc, element.id, attributes, d0);
    current := StripNamed(svgDoc, element.id, current, names, attributes, d0);
  }

  /** The walk over the snapshot `attributes` of element `id`, removing every `data-*` name. */
  method StripData(svgDoc: DomDocument, id: nat, attributes: seq<Attr>, ghost d0: Document) returns (current: seq<Attr>)
    requires svgDoc.tree == d0
    modifies svgDoc
    ensures current == DropData(attributes, |attributes|)
    ensures current == attributes || |current| < |attributes|
    ensures svgDoc.tree == if current != attributes then EditAttrsDoc(d0, map[id := current]) else d0
  {
    current := attributes;
    var j := 0;
    while j < |attributes|
      invariant j <= |attributes|
      invariant current == DropData(attributes, j)
      invariant current == attributes || |current| < |attributes|
      invariant svgDoc.tree == if current != attributes then EditAttrsDoc(d0, map[id := current]) else d0
    {
      var attr := attributes[j];
      if IsData(attr) {
        current := RemoveAttribute(svgDoc, id, current, attr.name, attributes, d0);
      }
      j := j + 1;
    }
  }

  /** The removal of each of `names` that the live list `live` of element `id` still has. */
  method StripNamed(svgDoc: DomDocument, id: nat, live: seq<Attr>, names: seq<string>,
                    ghost attributes: seq<Attr>, ghost d0: Document) returns (current: seq<Attr>)
    requires live == attributes || |live| < |attributes|
    requires svgDoc.tree == if live != attributes then EditAttrsDoc(d0, map[id := live]) else d0
    modifies svgDoc
    ensures current == DropNamed(live, names, |names|)
    ensures svgDoc.tree == if current != attributes then EditAttrsDoc(d0, map[id := current]) else d0
  {
    current := live;
    var k := 0;
    while k < |names|
      invariant k <= |names|
      invariant current == DropNamed(live, names, k)
      invariant current == attributes || |current| < |attributes|
      invariant svgDoc.tree == if current != attributes then EditAttrsDoc(d0, map[id := current]) else d0
    {
      var name := names[k];
      if HasAttr(current, name) {
        current := RemoveAttribute(svgDoc, id, current, name, attributes, d0);
      }
      k := k + 1;
    }
  }

  /**
    `el.removeAttribute(name)` on element `id`, whose live attribute list is `current`; removing a
    name the element does not have changes nothing. The ghost `attributes` and `d0` are the list
    and the tree before the element's first removal.
  */
  method RemoveAttribute(svgDoc: DomDocument, id: nat, current: seq<Attr>, name: string,
                         ghost attributes: seq<Attr>, ghost d0: Document) returns (next: seq<Attr>)
    requires current == attributes || |current| < |attributes|
    requires svgDoc.tree == if current != attributes then EditAttrsDoc(d0, map[id := current]) else d0
    modifies svgDoc
    ensures next == RemoveAttr(current, name)
    ensures next == attributes || |next| < |attributes|
    ensures svgDoc.tree == if next != attributes then EditAttrsDoc(d0, map[id := next]) else d0
  {
    RemoveAttrLength(current, name);
    next := RemoveAttr(current, name);
    if HasAttr(current, name) {
      LiveAttrsStep(d0, id, current, next, current != attributes);
      svgDoc.SetAttributes(id, next);
    }
  }

  /** With unique attribute names, every element keeps exactly its attributes that are neither `data-*` nor Figma ones. */
  lemma StrippedElementIff(tag: string, attrs: seq<Attr>, a: Attr)
    requires UniqueNames(attrs)
    ensures a in StrippedAttrs(tag, attrs) <==>
      a in attrs && !StartsWith(a.name, "data-") && a.name != "figma:type" && a.name != "figma:id"
  {
    StrippedAttrsKept(tag, attrs);
  }

  /** No element named `comment` is left after the first clean-up. */
  lemma CommentsGone(d: Document)
    requires Valid(d)
    ensures QuerySelectorAll(WithoutComments(d), Type("comment")) == []
  {
    var cs := QuerySelectorAll(d, Type("comment"));
    SelectDistinct(d.nodes, Type("comment"), false);
    forall x | x in cs ensures x.id in IdsWhere(cs, |cs|, Always) {
      var k :| 0 <= k < |cs| && cs[k] == x;
      IdsWhereIff(cs, |cs|, Always, k);
    }
    PruneSelectsNone(d.nodes, "comment", IdsWhere(cs, |cs|, Always), false);
  }

  /** An element is detached as an empty group exactly when it is a `g` that is `:empty` in `d`. */
  lemma EmptyGroupRemovedIff(d: Document, x: Node)
    requires Valid(d) && x in NodesSeq(d.nodes) && x.Element?
    ensures var gs := QuerySelectorAll(d, EmptyType("g"));
      x.id in IdsWhere(gs, |gs|, Always) <==> x.tag == "g" && IsEmptyElement(x)
  {
    SelectedRemovalIff(d, EmptyType("g"), Always, x);
  }

  /** An element is detached as an empty `defs` exactly when it is a `defs` with no child nodes in `d`. */
  lemma EmptyDefsRemovedIff(d: Document, x: Node)
    requires Valid(d) && x in NodesSeq(d.nodes) && x.Element?
    ensures var ds := QuerySelectorAll(d, Type("defs"));
      x.id in IdsWhere(ds, |ds|, Childless) <==> x.tag == "defs" && x.children == []
  {
    SelectedRemovalIff(d, Type("defs"), Childless, x);
  }

  /**
    The empty groups are found once: a group whose only child is an empty group loses that child
    and survives, empty.
  */
  lemma NestedEmptyGroupSurvives()
    ensures WithoutEmptyGroups(Document([Element(0, "svg", [], [Element(1, "g", [], [Element(2, "g", [], [])])])])) ==
      Document([Element(0, "svg", [], [Element(1, "g", [], [])])])
  {
    var inner := Element(2, "g", [], []);
    var outer := Element(1, "g", [], [inner]);
    var root := Element(0, "svg", [], [outer]);
    assert Select(inner, EmptyType("g"), false) == [inner];
    assert SelectSeq([inner], EmptyType("g"), false) == [inner];
    assert !IsEmptyElement(outer) by {
      assert inner in outer.children;
    }
    assert Select(outer, EmptyType("g"), false) == [inner];
    assert SelectSeq([outer], EmptyType("g"), false) == [inner];
    assert Select(root, EmptyType("g"), false) == [inner];
    assert SelectSeq([root], EmptyType("g"), false) == [inner];
    assert IdsWhere([inner], 1, Always) == {2};
    assert PruneSeq([inner], {2}) == [];
    assert PruneSeq([outer], {2}) == [Element(1, "g", [], [])];
  }

  // ---------------------------------------------------------------- analyzeSvg

  datatype SvgAnalysis = SvgAnalysis(
    elementCount: nat,
    pathCount: nat,
    groupCount: nat,
    defsCount: nat,
    styleCount: nat,
    hasInlineStyles: bool,
    fileSize: nat,
    hasFigmaAttributes: bool)

  /** The number of bytes of `c` in UTF-8, the size of a `Blob` holding it. */
  function Utf8Width(c: char): nat
  {
    if c as int < 0x80 then 1 else if c as int < 0x800 then 2 else if c as int < 0x10000 then 3 else 4
  }

  function Utf8Size(s: string): nat
  {
    if s == [] then 0 else Utf8Width(s[0]) + Utf8Size(s[1..])
  }

  predicate HasFigmaAttributes(n: Node)
  {
    n.Element? && (HasAttr(n.attrs, "figma:type") || HasAttr(n.attrs, "figma:id"))
  }

  function AnalyzeSvg(content: string, parse: Parser): (r: Option<SvgAnalysis>)
    ensures r.None? <==> parse(content).Threw?
  {
    match parse(content)
    case Threw(_) => None
    case Returned(d) =>
      var all := QuerySelectorAll(d, Universal);
      Some(SvgAnalysis(
        |all|,
        |QuerySelectorAll(d, Type("path"))|,
        |QuerySelectorAll(d, Type("g"))|,
        |QuerySelectorAll(d, Type("defs"))|,
        |QuerySelectorAll(d, Type("style"))|,
        |QuerySelectorAll(d, WithAttr("style"))| > 0,
        Utf8Size(content),
        exists i :: 0 <= i < |all| && HasFigmaAttributes(all[i])))
  }

  /** No count of a single element type exceeds the count of all elements. */
  lemma CountsBounded(content: string, parse: Parser)
    requires AnalyzeSvg(content, parse).Some?
    ensures var a := AnalyzeSvg(content, parse).value;
      a.pathCount <= a.elementCount && a.groupCount <= a.elementCount &&
      a.defsCount <= a.elementCount && a.styleCount <= a.elementCount
  {
    var d := parse(content).value;
    SelectAtMostAll(d.nodes, Type("path"), false, false);
    SelectAtMostAll(d.nodes, Type("g"), false, false);
    SelectAtMostAll(d.nodes, Type("defs"), false, false);
    SelectAtMostAll(d.nodes, Type("style"), false, false);
  }

  /** `hasInlineStyles` holds exactly when some element carries a `style` attribute. */
  lemma InlineStylesIff(content: string, parse: Parser)
    requires AnalyzeSvg(content, parse).Some?
    ensures var all := QuerySelectorAll(parse(content).value, Universal);
      AnalyzeSvg(content, parse).value.hasInlineStyles <==>
      exists i :: 0 <= i < |all| && all[i].Element? && HasAttr(all[i].attrs, "style")
  {
    SomeSelectedIff(parse(content).value, WithAttr("style"));
  }

  /** Each character takes one to four bytes. */
  lemma {:induction false} Utf8SizeBounds(s: string)
    ensures |s| <= Utf8Size(s) <= 4 * |s|
  {
    if s != [] {
      Utf8SizeBounds(s[1..]);
    }
  }

  lemma FileSizeBounds(content: string, parse: Parser)
    requires AnalyzeSvg(content, parse).Some?
    ensures |content| <= AnalyzeSvg(content, parse).value.fileSize <= 4 * |content|
  {
    Utf8SizeBounds(content);
  }
}
