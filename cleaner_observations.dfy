/**
  Small documents on which the cleaner's detaching passes behave in ways their descriptions do
  not suggest, each worked out to the tree the pass leaves: duplicate removal is not idempotent,
  a referenced definition nested inside an unreferenced one is removed with it, and a definition
  referenced only by a removed one survives unreferenced.
*/
module CleanerObservations {
  import opened Wrappers
  import opened Dom
  import opened CleanerSyntax
  import opened CleanerRemovals

  // ---------------------------------------------------------------- evaluation steps

  /** An element without children is selected exactly when it matches. */
  lemma SelectLeaf(n: Node, sel: Selector, inside: bool)
    requires n.Element? && n.children == []
    ensures Select(n, sel, inside) == if Matches(sel, n, inside) then [n] else []
  {
    assert SelectSeq([], sel, inside || Enters(sel, n.tag)) == [];
  }

  /** An element without attributes or children is written `<tag/>`. */
  lemma BareLeaf(n: Node)
    requires n.Element? && n.children == [] && n.attrs == []
    ensures Serialize(n) == "<" + n.tag + "/>"
  {
    assert SerializeAttrs([]) == [];
  }

  /** Detaching leaves an element without children as it is. */
  lemma PruneLeaf(n: Node, v: set<nat>)
    requires n.Element? && n.children == []
    ensures Prune(n, v) == n
  {
    assert PruneSeq([], v) == [];
  }

  // ---------------------------------------------------------------- duplicate removal, twice

  const DupC2 := Element(2, "c", [], [])
  const DupC4 := Element(4, "c", [], [])
  const DupG3 := Element(3, "g", [], [DupC4])
  const DupG3Emptied := Element(3, "g", [], [])
  const DupG5 := Element(5, "g", [], [])
  const DupRoot := Element(1, "svg", [], [DupC2, DupG3, DupG5])
  const DupRootOnce := Element(1, "svg", [], [DupC2, DupG3Emptied, DupG5])

  /** `<svg><c/><g><c/></g><g/></svg>` */
  const DuplicateSample := Document([DupRoot])
  /** `<svg><c/><g/><g/></svg>` */
  const DuplicateSampleOnce := Document([DupRootOnce])
  /** `<svg><c/><g/></svg>` */
  const DuplicateSampleTwice := Document([Element(1, "svg", [], [DupC2, DupG3Emptied])])

  lemma DuplicateSampleSnapshot()
    ensures QuerySelectorAll(DuplicateSample, Universal) == [DupRoot, DupC2, DupG3, DupC4, DupG5]
  {
    SelectLeaf(DupC2, Universal, false);
    SelectLeaf(DupC4, Universal, false);
    SelectLeaf(DupG5, Universal, false);
    assert SelectSeq([DupC4], Universal, false) == [DupC4];
    assert Select(DupG3, Universal, false) == [DupG3, DupC4];
    assert SelectSeq([DupG5], Universal, false) == [DupG5];
    assert SelectSeq([DupG3, DupG5], Universal, false) == [DupG3, DupC4, DupG5];
    assert SelectSeq([DupC2, DupG3, DupG5], Universal, false) == [DupC2, DupG3, DupC4, DupG5];
    assert Select(DupRoot, Universal, false) == [DupRoot, DupC2, DupG3, DupC4, DupG5];
    assert SelectSeq([DupRoot], Universal, false) == [DupRoot, DupC2, DupG3, DupC4, DupG5];
  }

  lemma DuplicateSampleWritten()
    ensures Serialize(DupC2) == "<c/>" && Serialize(DupC4) == "<c/>" && Serialize(DupG5) == "<g/>"
    ensures Serialize(DupG3) == "<g><c/></g>" && Serialize(DupRoot)[1] == 's'
  {
    BareLeaf(DupC2); BareLeaf(DupC4); BareLeaf(DupG5);
    assert SerializeSeq([DupC4]) == "<c/>";
    assert SerializeAttrs([]) == [];
  }

  /** The first run detaches only the inner `c`: the second `g` is not yet written like the first. */
  lemma DuplicateSampleIds()
    ensures DuplicateIds([DupRoot, DupC2, DupG3, DupC4, DupG5], 5) == {4}
  {
    var els := [DupRoot, DupC2, DupG3, DupC4, DupG5];
    DuplicateSampleWritten();
    var sv := Serialize(DupRoot);
    assert sv != "<c/>" && sv != "<g/>" && sv != "<g><c/></g>";
    assert SeenBefore(els, 1) == {sv};
    assert SeenBefore(els, 2) == {sv, "<c/>"};
    assert SeenBefore(els, 3) == {sv, "<c/>", "<g><c/></g>"};
    assert SeenBefore(els, 4) == {sv, "<c/>", "<g><c/></g>"};
    assert !IsDuplicateAt(els, 0) && !IsDuplicateAt(els, 1) && !IsDuplicateAt(els, 2);
    assert IsDuplicateAt(els, 3) && !IsDuplicateAt(els, 4);
    assert DuplicateIds(els, 1) == {};
    assert DuplicateIds(els, 2) == {};
    assert DuplicateIds(els, 3) == {};
    assert DuplicateIds(els, 4) == {4};
  }

  lemma DuplicateSamplePruned()
    ensures PruneDoc(DuplicateSample, {4}) == DuplicateSampleOnce
  {
    PruneLeaf(DupC2, {4}); PruneLeaf(DupG5, {4});
    assert PruneSeq([DupC4], {4}) == [];
    assert Prune(DupG3, {4}) == DupG3Emptied;
    assert PruneSeq([DupG5], {4}) == [DupG5];
    assert PruneSeq([DupG3, DupG5], {4}) == [DupG3Emptied, DupG5];
    assert PruneSeq([DupC2, DupG3, DupG5], {4}) == [DupC2, DupG3Emptied, DupG5];
    assert Prune(DupRoot, {4}) == DupRootOnce;
    assert PruneSeq([DupRoot], {4}) == [DupRootOnce];
  }

  lemma DuplicateSampleOnceSnapshot()
    ensures QuerySelectorAll(DuplicateSampleOnce, Universal) == [DupRootOnce, DupC2, DupG3Emptied, DupG5]
  {
    SelectLeaf(DupC2, Universal, false);
    SelectLeaf(DupG3Emptied, Universal, false);
    SelectLeaf(DupG5, Universal, false);
    assert SelectSeq([DupG5], Universal, false) == [DupG5];
    assert SelectSeq([DupG3Emptied, DupG5], Universal, false) == [DupG3Emptied, DupG5];
    assert SelectSeq([DupC2, DupG3Emptied, DupG5], Universal, false) == [DupC2, DupG3Emptied, DupG5];
    assert Select(DupRootOnce, Universal, false) == [DupRootOnce, DupC2, DupG3Emptied, DupG5];
    assert SelectSeq([DupRootOnce], Universal, false) == [DupRootOnce, DupC2, DupG3Emptied, DupG5];
  }

  /** The second run detaches the second `g`, now written like the emptied first one. */
  lemma DuplicateSampleOnceIds()
    ensures DuplicateIds([DupRootOnce, DupC2, DupG3Emptied, DupG5], 4) == {5}
  {
    var els := [DupRootOnce, DupC2, DupG3Emptied, DupG5];
    BareLeaf(DupC2); BareLeaf(DupG3Emptied); BareLeaf(DupG5);
    assert Serialize(DupC2) == "<c/>" && Serialize(DupG3Emptied) == "<g/>" && Serialize(DupG5) == "<g/>";
    assert SerializeAttrs([]) == [];
    var sv := Serialize(DupRootOnce);
    assert sv[1] == 's';
    assert sv != "<c/>" && sv != "<g/>";
    assert SeenBefore(els, 1) == {sv};
    assert SeenBefore(els, 2) == {sv, "<c/>"};
    assert SeenBefore(els, 3) == {sv, "<c/>", "<g/>"};
    assert !IsDuplicateAt(els, 0) && !IsDuplicateAt(els, 1) && !IsDuplicateAt(els, 2);
    assert IsDuplicateAt(els, 3);
    assert DuplicateIds(els, 1) == {};
    assert DuplicateIds(els, 2) == {};
    assert DuplicateIds(els, 3) == {};
  }

  lemma DuplicateSampleOncePruned()
    ensures PruneDoc(DuplicateSampleOnce, {5}) == DuplicateSampleTwice
  {
    PruneLeaf(DupC2, {5}); PruneLeaf(DupG3Emptied, {5});
    assert PruneSeq([DupG5], {5}) == [];
    assert PruneSeq([DupG3Emptied, DupG5], {5}) == [DupG3Emptied];
    assert PruneSeq([DupC2, DupG3Emptied, DupG5], {5}) == [DupC2, DupG3Emptied];
    assert PruneSeq([DupRootOnce], {5}) == DuplicateSampleTwice.nodes;
  }

  /**
    Duplicate removal is not idempotent: each snapshot element is compared as it was before the
    pass, so the second `g` of `<svg><c/><g><c/></g><g/></svg>` survives the first run, which
    empties the first `g`, and falls to a second run.
  */
  lemma DuplicatesNotIdempotent()
    ensures AfterDuplicates(DuplicateSample) == DuplicateSampleOnce
    ensures AfterDuplicates(DuplicateSampleOnce) == DuplicateSampleTwice
    ensures AfterDuplicates(AfterDuplicates(DuplicateSample)) != AfterDuplicates(DuplicateSample)
  {
    DuplicateSampleSnapshot();
    DuplicateSampleIds();
    DuplicateSamplePruned();
    DuplicateSampleOnceSnapshot();
    DuplicateSampleOnceIds();
    DuplicateSampleOncePruned();
    assert |DuplicateSampleTwice.nodes[0].children| != |DuplicateSampleOnce.nodes[0].children|;
  }

  // ---------------------------------------------------------------- a definition inside a definition

  const NestGradient := Element(4, "linearGradient", [Attr("id", "a")], [])
  const NestGroup := Element(3, "g", [Attr("id", "b")], [NestGradient])
  const NestDefs := Element(2, "defs", [], [NestGroup])
  const NestRect := Element(5, "rect", [Attr("fill", "url(#a)")], [])
  const NestRoot := Element(1, "svg", [], [NestDefs, NestRect])

  /** `<svg><defs><g id="b"><linearGradient id="a"/></g></defs><rect fill="url(#a)"/></svg>` */
  const NestedSample := Document([NestRoot])
  /** `<svg><defs/><rect fill="url(#a)"/></svg>` */
  const NestedSampleCleaned := Document([Element(1, "svg", [], [Element(2, "defs", [], []), NestRect])])

  /** `defs *[id]` selects both the group and the gradient inside it. */
  lemma NestedSampleDefinitions()
    ensures QuerySelectorAll(NestedSample, DefinitionSelector) == [NestGroup, NestGradient]
  {
    var sel := DefinitionSelector;
    SelectLeaf(NestGradient, sel, true);
    SelectLeaf(NestRect, sel, false);
    assert Matches(sel, NestGradient, true) && Matches(sel, NestGroup, true);
    assert SelectSeq([NestGradient], sel, true) == [NestGradient];
    assert Select(NestGroup, sel, true) == [NestGroup, NestGradient];
    assert SelectSeq([NestGroup], sel, true) == [NestGroup, NestGradient];
    assert Enters(sel, "defs");
    assert Select(NestDefs, sel, false) == [NestGroup, NestGradient];
    assert SelectSeq([NestRect], sel, false) == [];
    assert SelectSeq([NestDefs, NestRect], sel, false) == [NestGroup, NestGradient];
    assert Select(NestRoot, sel, false) == [NestGroup, NestGradient];
    assert SelectSeq([NestRoot], sel, false) == [NestGroup, NestGradient];
  }

  lemma NestedSampleElements()
    ensures QuerySelectorAll(NestedSample, Universal) == [NestRoot, NestDefs, NestGroup, NestGradient, NestRect]
  {
    SelectLeaf(NestGradient, Universal, false);
    SelectLeaf(NestRect, Universal, false);
    assert SelectSeq([NestGradient], Universal, false) == [NestGradient];
    assert Select(NestGroup, Universal, false) == [NestGroup, NestGradient];
    assert SelectSeq([NestGroup], Universal, false) == [NestGroup, NestGradient];
    assert Select(NestDefs, Universal, false) == [NestDefs, NestGroup, NestGradient];
    assert SelectSeq([NestRect], Universal, false) == [NestRect];
    assert SelectSeq([NestDefs, NestRect], Universal, false) == [NestDefs, NestGroup, NestGradient, NestRect];
    assert Select(NestRoot, Universal, false) == [NestRoot, NestDefs, NestGroup, NestGradient, NestRect];
    assert SelectSeq([NestRoot], Universal, false) == [NestRoot, NestDefs, NestGroup, NestGradient, NestRect];
  }

  /** An element none of whose attributes is a reference attribute references nothing. */
  lemma NoReferences(e: Node)
    requires forall i :: 0 <= i < |AttrsOf(e)| ==> AttrsOf(e)[i].name !in ReferenceAttributes
    ensures RefsOfElement(e) == {}
  {
    forall v | v in RefsOfElement(e)
      ensures false
    {
      RefsOfIff(AttrsOf(e), ReferenceAttributes, v);
      var j :| 0 <= j < |ReferenceAttributes| && v in RefTo(AttrsOf(e), ReferenceAttributes[j]);
      GetAttrFacts(AttrsOf(e), ReferenceAttributes[j]);
    }
  }

  /** An element whose only reference attribute is `fill="url(#a)"` references `a`, and only `a`. */
  lemma FillReferenceOnly(e: Node)
    requires GetAttr(AttrsOf(e), "fill") == Some("url(#a)")
    requires forall i :: 0 <= i < |AttrsOf(e)| ==> AttrsOf(e)[i].name == "fill" || AttrsOf(e)[i].name !in ReferenceAttributes
    ensures RefsOfElement(e) == {"a"}
  {
    var value := "url(#a)";
    assert |value| == 7 && value[..5] == "url(#" && value[5..6] == "a";
    assert ReferencedId(value) == Some("a");
    assert RefTo(AttrsOf(e), ReferenceAttributes[0]) == {"a"};
    forall j | 0 < j < |ReferenceAttributes|
      ensures RefTo(AttrsOf(e), ReferenceAttributes[j]) == {}
    {
      assert ReferenceAttributes[j] != "fill";
      GetAttrFacts(AttrsOf(e), ReferenceAttributes[j]);
    }
    forall v ensures v in RefsOfElement(e) <==> v == "a" {
      RefsOfIff(AttrsOf(e), ReferenceAttributes, v);
    }
  }

  /** Only the rectangle references anything, and it references the gradient. */
  lemma NestedSampleReferences()
    ensures DocumentUsedIds(NestedSample) == {"a"}
  {
    NestedSampleElements();
    var els := [NestRoot, NestDefs, NestGroup, NestGradient, NestRect];
    NoReferences(NestRoot);
    NoReferences(NestDefs);
    NoReferences(NestGroup);
    NoReferences(NestGradient);
    FillReferenceOnly(NestRect);
    assert UnionOver(els, 0, RefsOfElement) == {};
    assert UnionOver(els, 1, RefsOfElement) == {};
    assert UsedIds(els, 2) == {};
    assert UsedIds(els, 3) == {};
    assert UsedIds(els, 4) == {};
  }

  lemma NestedSamplePruned()
    ensures PruneDoc(NestedSample, {3}) == NestedSampleCleaned
  {
    PruneLeaf(NestRect, {3});
    assert PruneSeq([NestGroup], {3}) == [];
    assert Prune(NestDefs, {3}) == Element(2, "defs", [], []);
    assert PruneSeq([NestRect], {3}) == [NestRect];
    assert PruneSeq([NestDefs, NestRect], {3}) == [Element(2, "defs", [], []), NestRect];
    assert PruneSeq([NestRoot], {3}) == NestedSampleCleaned.nodes;
  }

  /**
    The gradient is referenced, and so not itself detached, but the unreferenced group around it
    is, and takes the gradient with it: no node of the cleaned tree is the gradient.
  */
  lemma NestedDefinitionRemoved()
    ensures "a" in DocumentUsedIds(NestedSample)
    ensures AfterDefinitions(NestedSample) == NestedSampleCleaned
    ensures forall x :: x in NodesSeq(NestedSampleCleaned.nodes) ==> x.id != NestGradient.id
  {
    NestedSampleDefinitions();
    NestedSampleReferences();
    var defs := [NestGroup, NestGradient];
    var p := Unused(DocumentUsedIds(NestedSample));
    assert GetAttr(NestGroup.attrs, "id") == Some("b");
    assert GetAttr(NestGradient.attrs, "id") == Some("a");
    assert p(NestGroup) && !p(NestGradient);
    assert IdsWhere(defs, 1, p) == {3};
    assert IdsWhere(defs, 2, p) == {3};
    NestedSamplePruned();
    var cleanedDefs := Element(2, "defs", [], []);
    assert Nodes(cleanedDefs) == [cleanedDefs];
    assert Nodes(NestRect) == [NestRect];
    assert NodesSeq([NestRect]) == [NestRect];
    assert NodesSeq([cleanedDefs, NestRect]) == [cleanedDefs, NestRect];
  }

  // ---------------------------------------------------------------- a definition referenced only by a removed one

  const KeptGradient := Element(3, "linearGradient", [Attr("id", "a")], [])
  const RefPattern := Element(4, "pattern", [Attr("id", "b"), Attr("fill", "url(#a)")], [])
  const ChainDefs := Element(2, "defs", [], [KeptGradient, RefPattern])
  const ChainDefsCleaned := Element(2, "defs", [], [KeptGradient])
  const ChainRoot := Element(1, "svg", [], [ChainDefs])
  const ChainRootCleaned := Element(1, "svg", [], [ChainDefsCleaned])

  /** `<svg><defs><linearGradient id="a"/><pattern id="b" fill="url(#a)"/></defs></svg>` */
  const ChainSample := Document([ChainRoot])
  /** `<svg><defs><linearGradient id="a"/></defs></svg>` */
  const ChainSampleCleaned := Document([ChainRootCleaned])

  lemma ChainSampleDefinitions()
    ensures QuerySelectorAll(ChainSample, DefinitionSelector) == [KeptGradient, RefPattern]
  {
    var sel := DefinitionSelector;
    SelectLeaf(KeptGradient, sel, true);
    SelectLeaf(RefPattern, sel, true);
    assert Matches(sel, KeptGradient, true) && Matches(sel, RefPattern, true);
    assert SelectSeq([RefPattern], sel, true) == [RefPattern];
    assert SelectSeq([KeptGradient, RefPattern], sel, true) == [KeptGradient, RefPattern];
    assert Enters(sel, "defs");
    assert Select(ChainDefs, sel, false) == [KeptGradient, RefPattern];
    assert SelectSeq([ChainDefs], sel, false) == [KeptGradient, RefPattern];
    assert Select(ChainRoot, sel, false) == [KeptGradient, RefPattern];
    assert SelectSeq([ChainRoot], sel, false) == [KeptGradient, RefPattern];
  }

  /** Before the pass, the pattern references the gradient. */
  lemma ChainSampleReferences()
    ensures DocumentUsedIds(ChainSample) == {"a"}
  {
    var els := [ChainRoot, ChainDefs, KeptGradient, RefPattern];
    SelectLeaf(KeptGradient, Universal, false);
    SelectLeaf(RefPattern, Universal, false);
    assert SelectSeq([RefPattern], Universal, false) == [RefPattern];
    assert SelectSeq([KeptGradient, RefPattern], Universal, false) == [KeptGradient, RefPattern];
    assert Select(ChainDefs, Universal, false) == [ChainDefs, KeptGradient, RefPattern];
    assert SelectSeq([ChainDefs], Universal, false) == [ChainDefs, KeptGradient, RefPattern];
    assert Select(ChainRoot, Universal, false) == els;
    assert SelectSeq([ChainRoot], Universal, false) == els;
    NoReferences(ChainRoot);
    NoReferences(ChainDefs);
    NoReferences(KeptGradient);
    assert GetAttr(RefPattern.attrs, "fill") == Some("url(#a)");
    FillReferenceOnly(RefPattern);
    assert UnionOver(els, 0, RefsOfElement) == {};
    assert UnionOver(els, 1, RefsOfElement) == {};
    assert UnionOver(els, 2, RefsOfElement) == {};
    assert UnionOver(els, 3, RefsOfElement) == {};
  }

  /** After the pass nothing references anything. */
  lemma ChainSampleCleanedReferences()
    ensures DocumentUsedIds(ChainSampleCleaned) == {}
  {
    var els := [ChainRootCleaned, ChainDefsCleaned, KeptGradient];
    SelectLeaf(KeptGradient, Universal, false);
    assert SelectSeq([KeptGradient], Universal, false) == [KeptGradient];
    assert Select(ChainDefsCleaned, Universal, false) == [ChainDefsCleaned, KeptGradient];
    assert SelectSeq([ChainDefsCleaned], Universal, false) == [ChainDefsCleaned, KeptGradient];
    assert Select(ChainRootCleaned, Universal, false) == els;
    assert SelectSeq([ChainRootCleaned], Universal, false) == els;
    NoReferences(ChainRootCleaned);
    NoReferences(ChainDefsCleaned);
    NoReferences(KeptGradient);
    assert UnionOver(els, 0, RefsOfElement) == {};
    assert UnionOver(els, 1, RefsOfElement) == {};
    assert UnionOver(els, 2, RefsOfElement) == {};
  }

  lemma ChainSamplePruned()
    ensures PruneDoc(ChainSample, {4}) == ChainSampleCleaned
  {
    PruneLeaf(KeptGradient, {4});
    assert PruneSeq([RefPattern], {4}) == [];
    assert PruneSeq([KeptGradient, RefPattern], {4}) == [KeptGradient];
    assert Prune(ChainDefs, {4}) == ChainDefsCleaned;
    assert PruneSeq([ChainDefs], {4}) == [ChainDefsCleaned];
    assert Prune(ChainRoot, {4}) == ChainRootCleaned;
    assert PruneSeq([ChainRoot], {4}) == [ChainRootCleaned];
  }

  /**
    The references are collected once, before anything is removed: the gradient survives because
    the pattern references it, the pattern is removed, and in the cleaned tree nothing references
    the gradient any more.
  */
  lemma UnreferencedDefinitionSurvives()
    ensures AfterDefinitions(ChainSample) == ChainSampleCleaned
    ensures KeptGradient in NodesSeq(ChainSampleCleaned.nodes)
    ensures "a" !in DocumentUsedIds(ChainSampleCleaned)
  {
    ChainSampleDefinitions();
    ChainSampleReferences();
    var defs := [KeptGradient, RefPattern];
    var p := Unused(DocumentUsedIds(ChainSample));
    assert GetAttr(KeptGradient.attrs, "id") == Some("a");
    assert GetAttr(RefPattern.attrs, "id") == Some("b");
    assert !p(KeptGradient) && p(RefPattern);
    assert IdsWhere(defs, 1, p) == {};
    assert IdsWhere(defs, 2, p) == {4};
    ChainSamplePruned();
    ChainSampleCleanedReferences();
    assert Nodes(KeptGradient) == [KeptGradient];
    assert NodesSeq([KeptGradient]) == [KeptGradient];
    assert Nodes(ChainDefsCleaned) == [ChainDefsCleaned, KeptGradient];
    assert NodesSeq([ChainDefsCleaned]) == [ChainDefsCleaned, KeptGradient];
    assert Nodes(ChainRootCleaned) == [ChainRootCleaned, ChainDefsCleaned, KeptGradient];
    assert NodesSeq([ChainRootCleaned]) == [ChainRootCleaned, ChainDefsCleaned, KeptGradient];
  }
}
