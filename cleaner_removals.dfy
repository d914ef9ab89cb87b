/**
  What the three detaching passes of the cleaner remove, stated over the snapshot each pass takes
  before it removes anything: duplicate elements, unreferenced definitions and blank style blocks.
  Each pass's victims are a set of node ids; the tree after the pass is the old tree with those
  nodes (and their subtrees) detached.
*/
module CleanerRemovals {
  import opened Wrappers
  import opened Text
  import opened Dom
  import opened DomFacts
  import opened CleanerSyntax

  // ---------------------------------------------------------------- duplicate elements

  /** The serializations of the first `k` snapshot elements: the `seen` set when element `k` is visited. */
  function SeenBefore(els: seq<Node>, k: nat): set<string>
    requires k <= |els|
  {
    if k == 0 then {} else SeenBefore(els, k - 1) + {Serialize(els[k - 1])}
  }

  predicate IsDuplicateAt(els: seq<Node>, k: nat)
    requires k < |els|
  {
    Serialize(els[k]) in SeenBefore(els, k)
  }

  /** The ids detached while visiting `els[..n]`. */
  function DuplicateIds(els: seq<Node>, n: nat): set<nat>
    requires n <= |els|
  {
    if n == 0 then {}
    else DuplicateIds(els, n - 1) + (if IsDuplicateAt(els, n - 1) then {els[n - 1].id} else {})
  }

  /** The `removed` counter after visiting `els[..n]`. */
  function DuplicateCount(els: seq<Node>, n: nat): nat
    requires n <= |els|
  {
    if n == 0 then 0
    else DuplicateCount(els, n - 1) + (if IsDuplicateAt(els, n - 1) then 1 else 0)
  }

  function AfterDuplicates(d: Document): Document
  {
    var els := QuerySelectorAll(d, Universal);
    PruneDoc(d, DuplicateIds(els, |els|))
  }

  function DuplicatesRemoved(d: Document): nat
  {
    var els := QuerySelectorAll(d, Universal);
    DuplicateCount(els, |els|)
  }

  lemma {:induction false} SeenBeforeIff(els: seq<Node>, k: nat, s: string)
    requires k <= |els|
    ensures s in SeenBefore(els, k) <==> exists j :: 0 <= j < k && Serialize(els[j]) == s
  {
    if k > 0 {
      SeenBeforeIff(els, k - 1, s);
    }
  }

  /** Over a snapshot without repeated nodes, an element is detached exactly when it is a duplicate. */
  lemma {:induction false} DuplicateIdsIff(els: seq<Node>, n: nat, k: nat)
    requires n <= |els| && k < |els| && Distinct(Ids(els))
    ensures els[k].id in DuplicateIds(els, n) <==> k < n && IsDuplicateAt(els, k)
  {
    if n > 0 {
      DuplicateIdsIff(els, n - 1, k);
      if k != n - 1 {
        DistinctAt(Ids(els), k, n - 1);
      }
    }
  }

  /**
    The first element of the snapshot serialized the same way as element `k` is never itself
    detached.
  */
  lemma {:induction false} FirstOccurrenceKept(els: seq<Node>, k: nat) returns (j: nat)
    requires k < |els| && Distinct(Ids(els))
    ensures j <= k && Serialize(els[j]) == Serialize(els[k]) && !IsDuplicateAt(els, j)
    ensures els[j].id !in DuplicateIds(els, |els|)
    decreases k
  {
    if IsDuplicateAt(els, k) {
      SeenBeforeIff(els, k, Serialize(els[k]));
      var i :| 0 <= i < k && Serialize(els[i]) == Serialize(els[k]);
      j := FirstOccurrenceKept(els, i);
    } else {
      j := k;
      DuplicateIdsIff(els, |els|, k);
    }
  }

  /** The counter is the number of distinct nodes detached. */
  lemma {:induction false} DuplicateCountIsDetached(els: seq<Node>, n: nat)
    requires n <= |els| && Distinct(Ids(els))
    ensures |DuplicateIds(els, n)| == DuplicateCount(els, n)
  {
    if n > 0 {
      DuplicateCountIsDetached(els, n - 1);
      DuplicateCountStep(els, n);
    }
  }

  /** Visiting element `n - 1`, not yet detached, adds one to both sides or to neither. */
  lemma DuplicateCountStep(els: seq<Node>, n: nat)
    requires 0 < n <= |els| && Distinct(Ids(els))
    requires |DuplicateIds(els, n - 1)| == DuplicateCount(els, n - 1)
    ensures |DuplicateIds(els, n)| == DuplicateCount(els, n)
  {
    DuplicateIdsIff(els, n - 1, n - 1);
    var dup := IsDuplicateAt(els, n - 1);
    DetachedCountStep(DuplicateIds(els, n - 1), DuplicateIds(els, n), els[n - 1].id, dup,
              DuplicateCount(els, n - 1), DuplicateCount(els, n));
  }

  /** Adding `x`, new to `a`, exactly when the counter goes up by one keeps the count. */
  lemma DetachedCountStep(a: set<nat>, b: set<nat>, x: nat, up: bool, c: nat, e: nat)
    requires x !in a && |a| == c
    requires b == a + (if up then {x} else {}) && e == c + (if up then 1 else 0)
    ensures |b| == e
  {
    if up {
      CardinalityAdd(a, x);
    } else {
      assert b == a;
    }
  }


  // ---------------------------------------------------------------- unused definitions

  /** The attributes whose `url(#id)` values count as references. */
  const ReferenceAttributes: seq<string> := ["fill", "stroke", "filter", "clip-path", "mask", "href", "xlink:href"]

  /** The id referenced by attribute `name`, if its value is a non-empty `url(#…)` value. */
  function RefTo(attrs: seq<Attr>, name: string): set<string>
  {
    match GetAttr(attrs, name)
    case None => {}
    case Some(v) =>
      match ReferencedId(v)
      case None => {}
      case Some(t) => {t}
  }

  function RefsOf(attrs: seq<Attr>, names: seq<string>): set<string>
  {
    if names == [] then {}
    else RefsOf(attrs, names[..|names| - 1]) + RefTo(attrs, names[|names| - 1])
  }

  /** The ids element `e` references through the reference attributes. */
  function RefsOfElement(e: Node): set<string>
  {
    RefsOf(AttrsOf(e), ReferenceAttributes)
  }

  /** The `usedIds` set after visiting `els[..n]`. */
  function UsedIds(els: seq<Node>, n: nat): set<string>
    requires n <= |els|
  {
    UnionOver(els, n, RefsOfElement)
  }

  /** A candidate is removed when its `id` is non-empty and unreferenced. */
  predicate IsUnusedDefinition(def: Node, used: set<string>)
  {
    match GetAttr(AttrsOf(def), "id")
    case None => false
    case Some(v) => v != [] && v !in used
  }

  function Unused(used: set<string>): Node -> bool
  {
    def => IsUnusedDefinition(def, used)
  }

  /** `defs *[id]` */
  const DefinitionSelector := InsideWithAttr("defs", "id")

  function DocumentUsedIds(d: Document): set<string>
  {
    var els := QuerySelectorAll(d, Universal);
    UsedIds(els, |els|)
  }

  function AfterDefinitions(d: Document): Document
  {
    var defs := QuerySelectorAll(d, DefinitionSelector);
    PruneDoc(d, IdsWhere(defs, |defs|, Unused(DocumentUsedIds(d))))
  }

  function DefinitionsRemoved(d: Document): nat
  {
    var defs := QuerySelectorAll(d, DefinitionSelector);
    CountWhere(defs, |defs|, Unused(DocumentUsedIds(d)))
  }

  lemma {:induction false} RefsOfIff(attrs: seq<Attr>, names: seq<string>, v: string)
    ensures v in RefsOf(attrs, names) <==> exists j :: 0 <= j < |names| && v in RefTo(attrs, names[j])
  {
    if names != [] {
      var init := names[..|names| - 1];
      RefsOfIff(attrs, init, v);
      assert forall j :: 0 <= j < |init| ==> init[j] == names[j];
    }
  }

  /**
    A definition is itself detached exactly when its id is non-empty and no element of the
    document references it through a reference attribute: a referenced definition is never itself
    detached (it can still go with a detached definition around it).
  */
  lemma DefinitionRemovedIff(d: Document, k: nat)
    requires Valid(d)
    requires k < |QuerySelectorAll(d, DefinitionSelector)|
    ensures var defs := QuerySelectorAll(d, DefinitionSelector);
      var v := GetAttr(AttrsOf(defs[k]), "id");
      defs[k].id in IdsWhere(defs, |defs|, Unused(DocumentUsedIds(d))) <==>
        v.Some? && v.value != [] &&
        forall e, j :: e in QuerySelectorAll(d, Universal) && 0 <= j < |ReferenceAttributes| ==>
          v.value !in RefTo(AttrsOf(e), ReferenceAttributes[j])
  {
    var defs := QuerySelectorAll(d, DefinitionSelector);
    var els := QuerySelectorAll(d, Universal);
    SelectDistinct(d.nodes, DefinitionSelector, false);
    IdsWhereIff(defs, |defs|, Unused(DocumentUsedIds(d)), k);
    var v := GetAttr(AttrsOf(defs[k]), "id");
    if v.Some? {
      UnionOverIff(els, |els|, RefsOfElement, v.value);
      forall e | e in els ensures v.value in RefsOfElement(e) <==>
          exists j :: 0 <= j < |ReferenceAttributes| && v.value in RefTo(AttrsOf(e), ReferenceAttributes[j]) {
        RefsOfIff(AttrsOf(e), ReferenceAttributes, v.value);
      }
    }
  }

  /**
    In the tree the pass leaves, a definition stays (with its subtree pruned) when no unreferenced
    definition contains it, itself included. Without that hypothesis a referenced definition can
    go with an unreferenced one around it: see `NestedDefinitionRemoved`.
  */
  lemma ReferencedDefinitionKept(d: Document, k: nat)
    requires Valid(d)
    requires k < |QuerySelectorAll(d, DefinitionSelector)|
    requires var defs := QuerySelectorAll(d, DefinitionSelector);
      forall j :: 0 <= j < |defs| && IsUnusedDefinition(defs[j], DocumentUsedIds(d)) ==> defs[k] !in Nodes(defs[j])
    ensures var defs := QuerySelectorAll(d, DefinitionSelector);
      Prune(defs[k], IdsWhere(defs, |defs|, Unused(DocumentUsedIds(d)))) in NodesSeq(AfterDefinitions(d).nodes)
  {
    var defs := QuerySelectorAll(d, DefinitionSelector);
    var p := Unused(DocumentUsedIds(d));
    var v := IdsWhere(defs, |defs|, p);
    SelectFromTree(d.nodes, DefinitionSelector, false);
    assert defs[k] in defs;
    forall y | y in NodesSeq(d.nodes) && y.id in v
      ensures defs[k] !in Nodes(y)
    {
      IdsWhereHas(defs, |defs|, p, y.id);
      var j :| 0 <= j < |defs| && defs[j].id == y.id && p(defs[j]);
      assert defs[j] in defs;
      SameIdSameNode(d.nodes, defs[j], y);
    }
    PruneKeeps(d.nodes, v, defs[k]);
  }

  // ---------------------------------------------------------------- blank style blocks

  /** `!styleElement.textContent?.trim()` */
  predicate IsBlankStyle(e: Node)
  {
    Trim(TextContent(e)) == []
  }

  function AfterStyles(d: Document): Document
  {
    var ss := QuerySelectorAll(d, Type("style"));
    PruneDoc(d, IdsWhere(ss, |ss|, IsBlankStyle))
  }

  function StylesRemoved(d: Document): nat
  {
    var ss := QuerySelectorAll(d, Type("style"));
    CountWhere(ss, |ss|, IsBlankStyle)
  }

  /** A `style` element is detached exactly when its text content is all whitespace. */
  lemma StyleRemovedIff(d: Document, k: nat)
    requires Valid(d) && k < |QuerySelectorAll(d, Type("style"))|
    ensures var ss := QuerySelectorAll(d, Type("style"));
      ss[k].id in IdsWhere(ss, |ss|, IsBlankStyle) <==> IsBlank(TextContent(ss[k]))
  {
    var ss := QuerySelectorAll(d, Type("style"));
    SelectDistinct(d.nodes, Type("style"), false);
    IdsWhereIff(ss, |ss|, IsBlankStyle, k);
    TrimEmptyIffBlank(TextContent(ss[k]));
  }
}
