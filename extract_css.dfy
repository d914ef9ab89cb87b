/**
  `extractCssFromSvg`: the style sheets of the SVG's `style` elements are collected and the
  elements detached; every element with a non-empty `style` attribute then trades it for a
  generated class, `svg_element_<i>` for the i-th element of the `[style]` snapshot, and its
  declarations become a rule of that class. The modified document is serialized back.
*/
module ExtractCss {
  import opened Wrappers
  import opened Text
  import opened Rewrite
  import opened Dom
  import opened DomFacts

  /** `ConversionResult`: the component text and the CSS that goes beside it. */
  datatype ConversionResult = ConversionResult(jsx: string, css: string)

  // ---------------------------------------------------------------- style sheets

  /** What the `style` loop has appended after visiting `tags[..n]`: each sheet, then a newline. */
  function StyleSheets(tags: seq<Node>, n: nat): string
    requires n <= |tags|
  {
    if n == 0 then "" else StyleSheets(tags, n - 1) + TextContent(tags[n - 1]) + "\n"
  }

  function StyleTags(d: Document): seq<Node>
  {
    QuerySelectorAll(d, Type("style"))
  }

  /** The document once every `style` element is detached. */
  function WithoutStyleTags(d: Document): Document
  {
    var tags := StyleTags(d);
    PruneDoc(d, IdsWhere(tags, |tags|, Always))
  }

  // ---------------------------------------------------------------- inline styles

  /** `element.getAttribute("style")` is truthy: present and not empty. */
  predicate Styled(attrs: seq<Attr>)
  {
    GetAttr(attrs, "style").Some? && GetAttr(attrs, "style").value != ""
  }

  predicate IsStyled(e: Node)
  {
    e.Element? && Styled(e.attrs)
  }

  /** The class generated for the element at position `i` of the snapshot. */
  function ClassName(i: nat): string
  {
    "svg_element_" + NatToString(i)
  }

  /** The attributes after `removeAttribute("style")` and then `setAttribute("class", className)`. */
  function Restyled(attrs: seq<Attr>, className: string): seq<Attr>
  {
    SetAttr(RemoveAttr(attrs, "style"), "class", className)
  }

  /** The attribute rewrites of the inline-style loop after visiting `els[..n]`. */
  function ClassPatch(els: seq<Node>, n: nat): map<nat, seq<Attr>>
    requires n <= |els|
  {
    if n == 0 then map[]
    else
      var m := ClassPatch(els, n - 1);
      var e := els[n - 1];
      if IsStyled(e) then m[e.id := Restyled(e.attrs, ClassName(n - 1))] else m
  }

  /**
    The entries of `inlineStyles` after visiting `els[..n]`, in insertion order, which is the order
    `Object.entries` gives for these keys; no key is repeated (`InlineKeysDistinct`).
  */
  function InlineStyles(els: seq<Node>, n: nat): seq<(string, string)>
    requires n <= |els|
  {
    if n == 0 then []
    else
      InlineStyles(els, n - 1) +
      (if IsStyled(els[n - 1]) then [(ClassName(n - 1), GetAttr(els[n - 1].attrs, "style").value)] else [])
  }

  /** The rule written for one entry: the declarations one per line. */
  function Rule(className: string, style: string): string
  {
    "." + className + " {\n  " + ReplaceLiteral(style, ";", ";\n  ") + "\n}\n"
  }

  /** The rules written for `entries[..n]`. */
  function Rules(entries: seq<(string, string)>, n: nat): string
    requires n <= |entries|
  {
    if n == 0 then "" else Rules(entries, n - 1) + Rule(entries[n - 1].0, entries[n - 1].1)
  }

  const InlineHeader := "\n/* Extracted inline styles */\n"

  /** The CSS for the inline styles: nothing when there are none. */
  function InlineCss(entries: seq<(string, string)>): string
  {
    if |entries| > 0 then InlineHeader + Rules(entries, |entries|) else ""
  }

  function StyledElements(d: Document): seq<Node>
  {
    QuerySelectorAll(d, WithAttr("style"))
  }

  /** The document once every styled element of the snapshot has its class. */
  function Classified(d: Document): Document
  {
    var els := StyledElements(d);
    EditAttrsDoc(d, ClassPatch(els, |els|))
  }

  /** What `extractCssFromSvg` returns for a parsed document. */
  function Extracted(d: Document): ConversionResult
  {
    var tags := StyleTags(d);
    var d1 := WithoutStyleTags(d);
    var els := StyledElements(d1);
    ConversionResult(SerializeDocument(Classified(d1)), StyleSheets(tags, |tags|) + InlineCss(InlineStyles(els, |els|)))
  }

  /** The call as a whole: the parser may throw, and then so does the call. */
  function ExtractOutcome(parse: Parser, svgContent: string): Outcome<ConversionResult>
  {
    match parse(svgContent)
    case Threw(msg) => Threw(msg)
    case Returned(d) => Returned(Extracted(d))
  }

  // ---------------------------------------------------------------- the passes

  method ExtractCssFromSvg(svgContent: string, parse: Parser) returns (r: Outcome<ConversionResult>)
    ensures r == ExtractOutcome(parse, svgContent)
  {
    var parsed := parse(svgContent);
    if parsed.Threw? {
      return Threw(parsed.message);
    }
    var svgDoc := new DomDocument(parsed.value);
    var cssContent := CollectStyleTags(svgDoc);
    ghost var sheets := cssContent;
    var inlineStyles := ClassifyInlineStyles(svgDoc);
    if |inlineStyles| > 0 {
      cssContent := cssContent + InlineHeader;
      cssContent := AppendRules(cssContent, inlineStyles);
      assert cssContent == sheets + (InlineHeader + Rules(inlineStyles, |inlineStyles|));
    } else {
      assert cssContent == sheets + "";
    }
    r := Returned(ConversionResult(SerializeDocument(svgDoc.tree), cssContent));
  }

  /** Appends every `style` element's text and a newline, detaching the element. */
  method CollectStyleTags(svgDoc: DomDocument) returns (cssContent: string)
    modifies svgDoc
    ensures svgDoc.tree == WithoutStyleTags(old(svgDoc.tree))
    ensures cssContent == StyleSheets(StyleTags(old(svgDoc.tree)), |StyleTags(old(svgDoc.tree))|)
  {
    ghost var d0 := svgDoc.tree;
    NothingDoc(d0);
    var styleTags := QuerySelectorAll(svgDoc.tree, Type("style"));
    cssContent := "";
    var i := 0;
    while i < |styleTags|
      invariant i <= |styleTags|
      invariant svgDoc.tree == PruneDoc(d0, IdsWhere(styleTags, i, Always))
      invariant cssContent == StyleSheets(styleTags, i)
    {
      PruneWhereStep(d0, styleTags, i, Always);
      var styleTag := styleTags[i];
      cssContent := cssContent + TextContent(styleTag) + "\n";
      svgDoc.RemoveNode(styleTag.id);
      i := i + 1;
    }
  }

  /**
    Moves every non-empty inline style into a generated class. Each element of the snapshot is
    visited once, so the live attribute list read for it is the snapshot's.
  */
  method ClassifyInlineStyles(svgDoc: DomDocument) returns (inlineStyles: seq<(string, string)>)
    modifies svgDoc
    ensures svgDoc.tree == Classified(old(svgDoc.tree))
    ensures inlineStyles == InlineStyles(StyledElements(old(svgDoc.tree)), |StyledElements(old(svgDoc.tree))|)
  {
    ghost var d0 := svgDoc.tree;
    NothingDoc(d0);
    var elementsWithStyle := QuerySelectorAll(svgDoc.tree, WithAttr("style"));
    inlineStyles := [];
    var index := 0;
    while index < |elementsWithStyle|
      invariant index <= |elementsWithStyle|
      invariant svgDoc.tree == EditAttrsDoc(d0, ClassPatch(elementsWithStyle, index))
      invariant inlineStyles == InlineStyles(elementsWithStyle, index)
    {
      var element := elementsWithStyle[index];
      if IsStyled(element) {
        var style := GetAttr(element.attrs, "style").value;
        var className := ClassName(index);
        inlineStyles := inlineStyles + [(className, style)];
        ghost var before := svgDoc.tree;
        var removed := RemoveAttr(element.attrs, "style");
        svgDoc.SetAttributes(element.id, removed);
        svgDoc.SetAttributes(element.id, SetAttr(removed, "class", className));
        ClassPatchDocStep(d0, elementsWithStyle, index, before, removed);
      }
      index := index + 1;
    }
  }

  /** After the two writes to one styled element the document holds one more class rewrite. */
  lemma ClassPatchDocStep(d0: Document, els: seq<Node>, i: nat, before: Document, removed: seq<Attr>)
    requires i < |els| && IsStyled(els[i]) && before == EditAttrsDoc(d0, ClassPatch(els, i))
    ensures var e := els[i];
      EditAttrsDoc(EditAttrsDoc(before, map[e.id := removed]), map[e.id := Restyled(e.attrs, ClassName(i))]) ==
      EditAttrsDoc(d0, ClassPatch(els, i + 1))
  {
    var e := els[i];
    var next := Restyled(e.attrs, ClassName(i));
    LiveAttrsStep(before, e.id, removed, next, true);
    EditAttrsDocTwice(d0, ClassPatch(els, i), map[e.id := next]);
    assert ClassPatch(els, i) + map[e.id := next] == ClassPatch(els, i + 1);
  }

  /** Appends the rule of every entry, in order. */
  method AppendRules(css: string, entries: seq<(string, string)>) returns (r: string)
    ensures r == css + Rules(entries, |entries|)
  {
    r := css;
    var i := 0;
    while i < |entries|
      invariant i <= |entries|
      invariant r == css + Rules(entries, i)
    {
      var (className, style) := entries[i];
      r := r + Rule(className, style);
      i := i + 1;
    }
  }

  // ---------------------------------------------------------------- what the extraction promises

  /** No `style` element is left in the serialized document. */
  lemma StyleTagsGone(d: Document)
    requires Valid(d)
    ensures StyleTags(WithoutStyleTags(d)) == []
  {
    var tags := StyleTags(d);
    SelectDistinct(d.nodes, Type("style"), false);
    forall x | x in tags ensures x.id in IdsWhere(tags, |tags|, Always) {
      var k :| 0 <= k < |tags| && tags[k] == x;
      IdsWhereIff(tags, |tags|, Always, k);
    }
    PruneSelectsNone(d.nodes, "style", IdsWhere(tags, |tags|, Always), false);
  }

  /** Generated class names differ for different positions. */
  lemma ClassNamesDistinct(i: nat, j: nat)
    ensures ClassName(i) == ClassName(j) <==> i == j
  {
    if ClassName(i) == ClassName(j) {
      var p := "svg_element_";
      assert ClassName(i)[|p|..] == NatToString(i);
      assert ClassName(j)[|p|..] == NatToString(j);
      NatToStringRoundTrip(i);
      NatToStringRoundTrip(j);
    }
  }

  /** A styled element loses `style` and has exactly the generated class; the rest reads as before. */
  lemma RestyledFacts(attrs: seq<Attr>, className: string)
    requires UniqueNames(attrs)
    ensures GetAttr(Restyled(attrs, className), "class") == Some(className)
    ensures GetAttr(Restyled(attrs, className), "style") == None
    ensures forall other :: other != "class" && other != "style" ==>
      GetAttr(Restyled(attrs, className), other) == GetAttr(attrs, other)
  {
    RemoveAttrFacts(attrs, "style");
    SetAttrFacts(RemoveAttr(attrs, "style"), "class", className);
  }

  /** Over a snapshot without repeated nodes, the patch rewrites exactly the styled elements. */
  lemma {:induction false} ClassPatchFacts(els: seq<Node>, n: nat)
    requires n <= |els| && Distinct(Ids(els))
    ensures forall k :: 0 <= k < n && IsStyled(els[k]) ==>
      els[k].id in ClassPatch(els, n) && ClassPatch(els, n)[els[k].id] == Restyled(els[k].attrs, ClassName(k))
    ensures forall x :: x in ClassPatch(els, n) ==> exists k :: 0 <= k < n && els[k].id == x && IsStyled(els[k])
  {
    if n > 0 {
      ClassPatchFacts(els, n - 1);
      forall k | 0 <= k < n - 1
        ensures els[k].id != els[n - 1].id
      {
        DistinctAt(Ids(els), k, n - 1);
      }
    }
  }

  /**
    In the classified document the k-th element of the `[style]` snapshot, when its style is not
    empty, carries the attributes `Restyled` gives with `svg_element_k`; every other element keeps
    its attributes.
  */
  lemma ClassesAssigned(d: Document, x: Node)
    requires Valid(d) && x in NodesSeq(d.nodes) && x.Element?
    ensures var els := StyledElements(d);
      EditAttrs(x, ClassPatch(els, |els|)) in NodesSeq(Classified(d).nodes) &&
      EditAttrs(x, ClassPatch(els, |els|)).attrs ==
        if IsStyled(x) then Restyled(x.attrs, ClassName(SnapshotIndex(els, x))) else x.attrs
  {
    var els := StyledElements(d);
    var m := ClassPatch(els, |els|);
    EditedNodeIn(d.nodes, m, x);
    SelectDistinct(d.nodes, WithAttr("style"), false);
    SelectFromTree(d.nodes, WithAttr("style"), false);
    ClassPatchFacts(els, |els|);
    if IsStyled(x) {
      SelectComplete(d.nodes, WithAttr("style"), false, x);
      SnapshotIndexFacts(els, x);
    } else if x.id in m {
      var k :| 0 <= k < |els| && els[k].id == x.id && IsStyled(els[k]);
      assert els[k] in els;
      SameIdSameNode(d.nodes, els[k], x);
    }
  }

  /** The position of `x` in the snapshot. */
  function SnapshotIndex(els: seq<Node>, x: Node): nat
  {
    if els == [] || els[0] == x then 0 else 1 + SnapshotIndex(els[1..], x)
  }

  lemma {:induction false} SnapshotIndexFacts(els: seq<Node>, x: Node)
    requires x in els
    ensures SnapshotIndex(els, x) < |els| && els[SnapshotIndex(els, x)] == x
  {
    if els[0] != x {
      SnapshotIndexFacts(els[1..], x);
    }
  }

  /** The extracted CSS gets the inline-styles section exactly when some snapshot element is styled. */
  lemma {:induction false} InlineStylesEmptyIff(els: seq<Node>, n: nat)
    requires n <= |els|
    ensures InlineStyles(els, n) == [] <==> forall k :: 0 <= k < n ==> !IsStyled(els[k])
  {
    if n > 0 {
      InlineStylesEmptyIff(els, n - 1);
    }
  }

  /** Every entry is the generated class and the style of a styled element visited so far. */
  lemma {:induction false} InlineStylesFrom(els: seq<Node>, n: nat)
    requires n <= |els|
    ensures forall e :: e in InlineStyles(els, n) ==>
      exists k :: 0 <= k < n && IsStyled(els[k]) && e == (ClassName(k), GetAttr(els[k].attrs, "style").value)
  {
    if n > 0 {
      InlineStylesFrom(els, n - 1);
    }
  }

  /** No key is entered twice. */
  predicate KeysDistinct(entries: seq<(string, string)>)
  {
    forall a, b :: 0 <= a < b < |entries| ==> entries[a].0 != entries[b].0
  }

  /** No class name is entered twice, so the record keeps every entry. */
  lemma {:induction false} InlineKeysDistinct(els: seq<Node>, n: nat)
    requires n <= |els|
    ensures KeysDistinct(InlineStyles(els, n))
  {
    if n > 0 {
      InlineKeysDistinct(els, n - 1);
      InlineStylesFrom(els, n - 1);
      var r0 := InlineStyles(els, n - 1);
      if IsStyled(els[n - 1]) {
        var last := (ClassName(n - 1), GetAttr(els[n - 1].attrs, "style").value);
        forall a | 0 <= a < |r0| ensures r0[a].0 != last.0 {
          assert r0[a] in r0;
          var k :| 0 <= k < n - 1 && IsStyled(els[k]) && r0[a] == (ClassName(k), GetAttr(els[k].attrs, "style").value);
          ClassNamesDistinct(k, n - 1);
        }
        KeysDistinctAppend(r0, last);
      } else {
        assert InlineStyles(els, n) == r0 + [];
      }
    }
  }

  lemma KeysDistinctAppend(r: seq<(string, string)>, last: (string, string))
    requires KeysDistinct(r) && forall a :: 0 <= a < |r| ==> r[a].0 != last.0
    ensures KeysDistinct(r + [last])
  {
    var u := r + [last];
    forall a, b | 0 <= a < b < |u| ensures u[a].0 != u[b].0 {
      assert u[a] == r[a];
      if b < |r| {
        assert u[b] == r[b];
      }
    }
  }

  /** The CSS carries the inline-styles header exactly when some element of the snapshot is styled. */
  lemma InlineHeaderIff(d: Document)
    ensures var els := StyledElements(WithoutStyleTags(d));
      InlineCss(InlineStyles(els, |els|)) != [] <==> exists k :: 0 <= k < |els| && IsStyled(els[k])
  {
    var els := StyledElements(WithoutStyleTags(d));
    InlineStylesEmptyIff(els, |els|);
  }
}
