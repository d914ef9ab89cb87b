/**
  Facts about the document tree: snapshots are drawn from the tree, ids identify nodes, detaching
  and rewriting by id compose, commute and keep ids distinct, and a rewrite that agrees with a
  per-element function on every element is that function mapped over the tree.
*/
module DomFacts {
  import opened Dom

  // ---------------------------------------------------------------- sequences of nodes and ids

  lemma {:induction false} NodesSeqAppend(a: seq<Node>, b: seq<Node>)
    ensures NodesSeq(a + b) == NodesSeq(a) + NodesSeq(b)
  {
    if a == [] {
      assert a + b == b;
    } else {
      assert (a + b)[0] == a[0];
      assert (a + b)[1..] == a[1..] + b;
      NodesSeqAppend(a[1..], b);
    }
  }

  lemma NodesSeqCons(x: Node, rest: seq<Node>)
    ensures NodesSeq([x] + rest) == Nodes(x) + NodesSeq(rest)
  {
    assert ([x] + rest)[0] == x;
    assert ([x] + rest)[1..] == rest;
  }

  lemma IdsAppend(a: seq<Node>, b: seq<Node>)
    ensures Ids(a + b) == Ids(a) + Ids(b)
  {
    assert Ids(a + b) == Ids(a) + Ids(b);
  }

  /** Two positions of a distinct sequence hold different values. */
  lemma DistinctAt(s: seq<nat>, i: int, j: int)
    requires Distinct(s) && 0 <= i < |s| && 0 <= j < |s| && i != j
    ensures s[i] != s[j]
  {
    var lo, hi := if i < j then i else j, if i < j then j else i;
    assert s == s[..hi] + s[hi..];
    assert s[lo] in s[..hi] && s[hi] in s[hi..];
    assert multiset(s) == multiset(s[..hi]) + multiset(s[hi..]);
    assert multiset(s[..hi])[s[lo]] >= 1 && multiset(s[hi..])[s[hi]] >= 1;
    assert multiset(s)[s[lo]] <= 1 && multiset(s)[s[hi]] <= 1;
  }

  lemma DistinctSub(a: seq<nat>, b: seq<nat>)
    requires Distinct(b) && multiset(a) <= multiset(b)
    ensures Distinct(a)
  {
  }

  /** In a valid forest, a node is determined by its id. */
  lemma SameIdSameNode(cs: seq<Node>, a: Node, b: Node)
    requires ValidForest(cs)
    requires a in NodesSeq(cs) && b in NodesSeq(cs) && a.id == b.id
    ensures a == b
  {
    var s := NodesSeq(cs);
    var i :| 0 <= i < |s| && s[i] == a;
    var j :| 0 <= j < |s| && s[j] == b;
    if i != j {
      DistinctAt(Ids(s), i, j);
    }
  }

  // ---------------------------------------------------------------- snapshots

  lemma {:induction false} SelectFromTree(cs: seq<Node>, sel: Selector, inside: bool)
    ensures multiset(Ids(SelectSeq(cs, sel, inside))) <= multiset(Ids(NodesSeq(cs)))
    ensures forall x :: x in SelectSeq(cs, sel, inside) ==>
              x in NodesSeq(cs) && x.Element? && Matches(sel, x, true)
  {
    if cs != [] {
      SelectNodeFromTree(cs[0], sel, inside);
      SelectFromTree(cs[1..], sel, inside);
      IdsAppend(Select(cs[0], sel, inside), SelectSeq(cs[1..], sel, inside));
      IdsAppend(Nodes(cs[0]), NodesSeq(cs[1..]));
    }
  }

  lemma {:induction false} SelectNodeFromTree(n: Node, sel: Selector, inside: bool)
    ensures multiset(Ids(Select(n, sel, inside))) <= multiset(Ids(Nodes(n)))
    ensures forall x :: x in Select(n, sel, inside) ==>
              x in Nodes(n) && x.Element? && Matches(sel, x, true)
  {
    match n
    case TextNode(_, _) =>
    case Element(_, tag, _, kids) =>
      var inner := inside || Enters(sel, tag);
      SelectFromTree(kids, sel, inner);
      var head := if Matches(sel, n, inside) then [n] else [];
      IdsAppend(head, SelectSeq(kids, sel, inner));
      IdsAppend([n], NodesSeq(kids));
      if Matches(sel, n, inside) {
        assert Matches(sel, n, true);
      }
      forall x | x in Select(n, sel, inside)
        ensures x in Nodes(n) && x.Element? && Matches(sel, x, true)
      {
        if x !in SelectSeq(kids, sel, inner) {
          assert x == n;
        }
      }
  }

  /** A snapshot of a valid forest holds no node twice. */
  lemma SelectDistinct(cs: seq<Node>, sel: Selector, inside: bool)
    requires ValidForest(cs)
    ensures Distinct(Ids(SelectSeq(cs, sel, inside)))
  {
    SelectFromTree(cs, sel, inside);
    DistinctSub(Ids(SelectSeq(cs, sel, inside)), Ids(NodesSeq(cs)));
  }

  /** The `i`-th node of a snapshot is an element that `sel` matches. */
  lemma SnapshotAt(d: Document, sel: Selector, i: nat)
    requires i < |QuerySelectorAll(d, sel)|
    ensures QuerySelectorAll(d, sel)[i].Element? && Matches(sel, QuerySelectorAll(d, sel)[i], true)
  {
    SelectFromTree(d.nodes, sel, false);
    assert QuerySelectorAll(d, sel)[i] in QuerySelectorAll(d, sel);
  }

  /** Every element that matches `sel` without the help of an ancestor is in the snapshot. */
  lemma {:induction false} SelectComplete(cs: seq<Node>, sel: Selector, inside: bool, x: Node)
    requires x in NodesSeq(cs) && x.Element? && Matches(sel, x, false)
    ensures x in SelectSeq(cs, sel, inside)
  {
    if x in Nodes(cs[0]) {
      SelectNodeComplete(cs[0], sel, inside, x);
    } else {
      SelectComplete(cs[1..], sel, inside, x);
    }
  }

  lemma {:induction false} SelectNodeComplete(n: Node, sel: Selector, inside: bool, x: Node)
    requires x in Nodes(n) && x.Element? && Matches(sel, x, false)
    ensures x in Select(n, sel, inside)
  {
    match n
    case TextNode(_, _) =>
    case Element(_, tag, _, kids) =>
      if x != n {
        SelectComplete(kids, sel, inside || Enters(sel, tag), x);
      }
  }

  lemma {:induction false} TextNodesFromTree(cs: seq<Node>)
    ensures multiset(Ids(TextNodesSeq(cs))) <= multiset(Ids(NodesSeq(cs)))
    ensures forall x :: x in TextNodesSeq(cs) ==> x in NodesSeq(cs) && x.TextNode?
  {
    if cs != [] {
      TextNodesFromTree(cs[1..]);
      IdsAppend(Nodes(cs[0]), NodesSeq(cs[1..]));
      match cs[0]
      case TextNode(_, _) =>
        IdsAppend([cs[0]], TextNodesSeq(cs[1..]));
      case Element(_, _, _, kids) =>
        TextNodesFromTree(kids);
        IdsAppend(TextNodesSeq(kids), TextNodesSeq(cs[1..]));
        IdsAppend([cs[0]], NodesSeq(kids));
    }
  }

  lemma TextNodesDistinct(cs: seq<Node>)
    requires ValidForest(cs)
    ensures Distinct(Ids(TextNodesSeq(cs)))
  {
    TextNodesFromTree(cs);
    DistinctSub(Ids(TextNodesSeq(cs)), Ids(NodesSeq(cs)));
  }

  lemma {:induction false} TextNodesComplete(cs: seq<Node>, x: Node)
    requires x in NodesSeq(cs) && x.TextNode?
    ensures x in TextNodesSeq(cs)
  {
    if x in Nodes(cs[0]) {
      match cs[0]
      case TextNode(_, _) =>
      case Element(_, _, _, kids) =>
        TextNodesComplete(kids, x);
    } else {
      TextNodesComplete(cs[1..], x);
    }
  }

  lemma CardinalityAdd<T>(a: set<T>, x: T)
    requires x !in a
    ensures |a + {x}| == |a| + 1
  {
  }

  /** Over a snapshot without repeated nodes, a node's id is selected exactly when the node satisfies `p`. */
  lemma {:induction false} IdsWhereIff(els: seq<Node>, n: nat, p: Node -> bool, k: nat)
    requires n <= |els| && k < |els| && Distinct(Ids(els))
    ensures els[k].id in IdsWhere(els, n, p) <==> k < n && p(els[k])
  {
    if n > 0 {
      IdsWhereIff(els, n - 1, p, k);
      if k != n - 1 {
        DistinctAt(Ids(els), k, n - 1);
      }
    }
  }

  /** Over a snapshot without repeated nodes, the text patch holds exactly the selected nodes' data. */
  lemma {:induction false} TextPatchOfFacts(ts: seq<Node>, n: nat, p: Node -> bool, g: Node -> string, k: nat)
    requires n <= |ts| && k < |ts| && Distinct(Ids(ts))
    ensures ts[k].id in TextPatchOf(ts, n, p, g) <==> k < n && p(ts[k])
    ensures ts[k].id in TextPatchOf(ts, n, p, g) ==> TextPatchOf(ts, n, p, g)[ts[k].id] == g(ts[k])
  {
    if n > 0 {
      TextPatchOfFacts(ts, n - 1, p, g, k);
      if k != n - 1 {
        DistinctAt(Ids(ts), k, n - 1);
      }
    }
  }

  /** The counter is the number of distinct nodes selected. */
  lemma {:induction false} CountWhereIsSize(els: seq<Node>, n: nat, p: Node -> bool)
    requires n <= |els| && Distinct(Ids(els))
    ensures |IdsWhere(els, n, p)| == CountWhere(els, n, p)
  {
    if n > 0 {
      CountWhereIsSize(els, n - 1, p);
      CountWhereStep(els, n, p);
    }
  }

  lemma NotYetSelected(els: seq<Node>, n: nat, p: Node -> bool)
    requires n < |els| && Distinct(Ids(els))
    ensures els[n].id !in IdsWhere(els, n, p)
  {
    IdsWhereIff(els, n, p, n);
  }

  lemma CountWhereStep(els: seq<Node>, n: nat, p: Node -> bool)
    requires 0 < n <= |els| && Distinct(Ids(els))
    requires |IdsWhere(els, n - 1, p)| == CountWhere(els, n - 1, p)
    ensures |IdsWhere(els, n, p)| == CountWhere(els, n, p)
  {
    NotYetSelected(els, n - 1, p);
    CountWhereAdd(els, n, p);
  }

  lemma CountWhereAdd(els: seq<Node>, n: nat, p: Node -> bool)
    requires 0 < n <= |els| && els[n - 1].id !in IdsWhere(els, n - 1, p)
    requires |IdsWhere(els, n - 1, p)| == CountWhere(els, n - 1, p)
    ensures |IdsWhere(els, n, p)| == CountWhere(els, n, p)
  {
    var a := IdsWhere(els, n - 1, p);
    if p(els[n - 1]) {
      CardinalityAdd(a, els[n - 1].id);
    } else {
      assert IdsWhere(els, n, p) == a;
    }
  }


  lemma {:induction false} UnionOverIff<T>(els: seq<Node>, n: nat, g: Node -> set<T>, v: T)
    requires n <= |els|
    ensures v in UnionOver(els, n, g) <==> exists k :: 0 <= k < n && v in g(els[k])
  {
    if n > 0 {
      UnionOverIff(els, n - 1, g, v);
    }
  }

  // ---------------------------------------------------------------- detaching

  lemma {:induction false} PruneFromTree(cs: seq<Node>, v: set<nat>)
    ensures multiset(Ids(NodesSeq(PruneSeq(cs, v)))) <= multiset(Ids(NodesSeq(cs)))
  {
    if cs != [] {
      PruneFromTree(cs[1..], v);
      IdsAppend(Nodes(cs[0]), NodesSeq(cs[1..]));
      if cs[0].id !in v {
        PruneNodeFromTree(cs[0], v);
        NodesSeqCons(Prune(cs[0], v), PruneSeq(cs[1..], v));
        IdsAppend(Nodes(Prune(cs[0], v)), NodesSeq(PruneSeq(cs[1..], v)));
      }
    }
  }

  lemma {:induction false} PruneNodeFromTree(n: Node, v: set<nat>)
    ensures multiset(Ids(Nodes(Prune(n, v)))) <= multiset(Ids(Nodes(n)))
  {
    match n
    case TextNode(_, _) =>
    case Element(i, t, a, kids) =>
      PruneFromTree(kids, v);
      IdsAppend([n], NodesSeq(kids));
      IdsAppend([Prune(n, v)], NodesSeq(PruneSeq(kids, v)));
  }

  lemma PruneValid(cs: seq<Node>, v: set<nat>)
    requires ValidForest(cs)
    ensures ValidForest(PruneSeq(cs, v))
  {
    PruneFromTree(cs, v);
    DistinctSub(Ids(NodesSeq(PruneSeq(cs, v))), Ids(NodesSeq(cs)));
  }

  /**
    A node that is not detached and has no detached ancestor stays in the forest, with its own
    subtree pruned.
  */
  lemma {:induction false} PruneKeeps(cs: seq<Node>, v: set<nat>, x: Node)
    requires x in NodesSeq(cs)
    requires forall y :: y in NodesSeq(cs) && y.id in v ==> x !in Nodes(y)
    ensures Prune(x, v) in NodesSeq(PruneSeq(cs, v))
  {
    NodesSeqCons(cs[0], cs[1..]);
    assert cs == [cs[0]] + cs[1..];
    if x in Nodes(cs[0]) {
      assert cs[0] in Nodes(cs[0]);
      PruneNodeKeeps(cs[0], v, x);
      NodesSeqCons(Prune(cs[0], v), PruneSeq(cs[1..], v));
    } else {
      PruneKeeps(cs[1..], v, x);
      if cs[0].id !in v {
        NodesSeqCons(Prune(cs[0], v), PruneSeq(cs[1..], v));
      }
    }
  }

  lemma {:induction false} PruneNodeKeeps(n: Node, v: set<nat>, x: Node)
    requires x in Nodes(n)
    requires forall y :: y in Nodes(n) && y.id in v ==> x !in Nodes(y)
    ensures Prune(x, v) in Nodes(Prune(n, v))
  {
    if x != n {
      var kids := n.children;
      assert Nodes(n) == [n] + NodesSeq(kids);
      PruneKeeps(kids, v, x);
      assert Nodes(Prune(n, v)) == [Prune(n, v)] + NodesSeq(PruneSeq(kids, v));
    }
  }

  /** Detaching one set of nodes and then another is detaching both. */
  lemma {:induction false} PruneCompose(cs: seq<Node>, v: set<nat>, w: set<nat>)
    ensures PruneSeq(PruneSeq(cs, v), w) == PruneSeq(cs, v + w)
  {
    if cs != [] {
      PruneCompose(cs[1..], v, w);
      if cs[0].id !in v {
        var r := [Prune(cs[0], v)] + PruneSeq(cs[1..], v);
        assert r[0] == Prune(cs[0], v) && r[1..] == PruneSeq(cs[1..], v);
        if cs[0].id !in w {
          PruneNodeCompose(cs[0], v, w);
        }
      }
    }
  }

  lemma {:induction false} PruneNodeCompose(n: Node, v: set<nat>, w: set<nat>)
    ensures Prune(Prune(n, v), w) == Prune(n, v + w)
  {
    match n
    case TextNode(_, _) =>
    case Element(_, _, _, kids) =>
      PruneCompose(kids, v, w);
  }

  // ---------------------------------------------------------------- rewriting attributes

  lemma {:induction false} EditAttrsKeepsIds(cs: seq<Node>, m: map<nat, seq<Attr>>)
    ensures Ids(NodesSeq(EditAttrsSeq(cs, m))) == Ids(NodesSeq(cs))
  {
    if cs != [] {
      EditAttrsKeepsIds(cs[1..], m);
      EditAttrsNodeKeepsIds(cs[0], m);
      NodesSeqCons(EditAttrs(cs[0], m), EditAttrsSeq(cs[1..], m));
      IdsAppend(Nodes(cs[0]), NodesSeq(cs[1..]));
      IdsAppend(Nodes(EditAttrs(cs[0], m)), NodesSeq(EditAttrsSeq(cs[1..], m)));
    }
  }

  lemma {:induction false} EditAttrsNodeKeepsIds(n: Node, m: map<nat, seq<Attr>>)
    ensures Ids(Nodes(EditAttrs(n, m))) == Ids(Nodes(n))
  {
    match n
    case TextNode(_, _) =>
    case Element(_, _, _, kids) =>
      EditAttrsKeepsIds(kids, m);
      IdsAppend([n], NodesSeq(kids));
      IdsAppend([EditAttrs(n, m)], NodesSeq(EditAttrsSeq(kids, m)));
  }

  /** A node of the forest appears, rewritten, in the rewritten forest. */
  lemma {:induction false} EditedNodeIn(cs: seq<Node>, m: map<nat, seq<Attr>>, x: Node)
    requires x in NodesSeq(cs)
    ensures EditAttrs(x, m) in NodesSeq(EditAttrsSeq(cs, m))
  {
    NodesSeqCons(EditAttrs(cs[0], m), EditAttrsSeq(cs[1..], m));
    if x in Nodes(cs[0]) {
      EditedNodeInNode(cs[0], m, x);
    } else {
      EditedNodeIn(cs[1..], m, x);
    }
  }

  lemma {:induction false} EditedNodeInNode(n: Node, m: map<nat, seq<Attr>>, x: Node)
    requires x in Nodes(n)
    ensures EditAttrs(x, m) in Nodes(EditAttrs(n, m))
  {
    match n
    case TextNode(_, _) =>
    case Element(_, _, _, kids) =>
      if x != n {
        EditedNodeIn(kids, m, x);
      }
  }

  lemma EditAttrsValid(cs: seq<Node>, m: map<nat, seq<Attr>>)
    requires ValidForest(cs)
    ensures ValidForest(EditAttrsSeq(cs, m))
  {
    EditAttrsKeepsIds(cs, m);
  }

  /** Two attribute rewrites in a row are one rewrite; the later one wins where both apply. */
  lemma {:induction false} EditAttrsCompose(cs: seq<Node>, m1: map<nat, seq<Attr>>, m2: map<nat, seq<Attr>>)
    ensures EditAttrsSeq(EditAttrsSeq(cs, m1), m2) == EditAttrsSeq(cs, m1 + m2)
  {
    if cs != [] {
      EditAttrsCompose(cs[1..], m1, m2);
      EditAttrsNodeCompose(cs[0], m1, m2);
      var r := EditAttrsSeq(cs, m1);
      assert r[0] == EditAttrs(cs[0], m1) && r[1..] == EditAttrsSeq(cs[1..], m1);
    }
  }

  lemma {:induction false} EditAttrsNodeCompose(n: Node, m1: map<nat, seq<Attr>>, m2: map<nat, seq<Attr>>)
    ensures EditAttrs(EditAttrs(n, m1), m2) == EditAttrs(n, m1 + m2)
  {
    match n
    case TextNode(_, _) =>
    case Element(_, _, _, kids) =>
      EditAttrsCompose(kids, m1, m2);
  }

  /** Detaching nodes and rewriting attributes commute. */
  lemma {:induction false} PruneEditAttrsCommute(cs: seq<Node>, v: set<nat>, m: map<nat, seq<Attr>>)
    ensures EditAttrsSeq(PruneSeq(cs, v), m) == PruneSeq(EditAttrsSeq(cs, m), v)
  {
    if cs != [] {
      PruneEditAttrsCommute(cs[1..], v, m);
      var e := EditAttrsSeq(cs, m);
      assert e[0] == EditAttrs(cs[0], m) && e[1..] == EditAttrsSeq(cs[1..], m);
      if cs[0].id !in v {
        var p := PruneSeq(cs, v);
        assert p[0] == Prune(cs[0], v) && p[1..] == PruneSeq(cs[1..], v);
        PruneEditAttrsNodeCommute(cs[0], v, m);
      }
    }
  }

  lemma {:induction false} PruneEditAttrsNodeCommute(n: Node, v: set<nat>, m: map<nat, seq<Attr>>)
    ensures EditAttrs(Prune(n, v), m) == Prune(EditAttrs(n, m), v)
  {
    match n
    case TextNode(_, _) =>
    case Element(_, _, _, kids) =>
      PruneEditAttrsCommute(kids, v, m);
  }

  /**
    A rewrite that gives every element of the tree the attributes `f` computes for it (and leaves
    alone the elements whose attributes `f` keeps) is `f` mapped over the tree.
  */
  lemma {:induction false} EditAttrsIsMap(cs: seq<Node>, m: map<nat, seq<Attr>>, f: (string, seq<Attr>) -> seq<Attr>)
    requires forall n :: n in NodesSeq(cs) && n.Element? ==> Lookup(m, n.id, n.attrs) == f(n.tag, n.attrs)
    ensures EditAttrsSeq(cs, m) == MapAttrsSeq(cs, f)
  {
    if cs != [] {
      EditAttrsIsMap(cs[1..], m, f);
      EditAttrsNodeIsMap(cs[0], m, f);
    }
  }

  lemma {:induction false} EditAttrsNodeIsMap(n: Node, m: map<nat, seq<Attr>>, f: (string, seq<Attr>) -> seq<Attr>)
    requires forall x :: x in Nodes(n) && x.Element? ==> Lookup(m, x.id, x.attrs) == f(x.tag, x.attrs)
    ensures EditAttrs(n, m) == MapAttrs(n, f)
  {
    match n
    case TextNode(_, _) =>
    case Element(_, _, _, kids) =>
      EditAttrsIsMap(kids, m, f);
  }

  lemma {:induction false} MapAttrsKeepsIds(cs: seq<Node>, f: (string, seq<Attr>) -> seq<Attr>)
    ensures Ids(NodesSeq(MapAttrsSeq(cs, f))) == Ids(NodesSeq(cs))
  {
    if cs != [] {
      MapAttrsKeepsIds(cs[1..], f);
      MapAttrsNodeKeepsIds(cs[0], f);
      NodesSeqCons(MapAttrs(cs[0], f), MapAttrsSeq(cs[1..], f));
      IdsAppend(Nodes(cs[0]), NodesSeq(cs[1..]));
      IdsAppend(Nodes(MapAttrs(cs[0], f)), NodesSeq(MapAttrsSeq(cs[1..], f)));
    }
  }

  lemma {:induction false} MapAttrsNodeKeepsIds(n: Node, f: (string, seq<Attr>) -> seq<Attr>)
    ensures Ids(Nodes(MapAttrs(n, f))) == Ids(Nodes(n))
  {
    match n
    case TextNode(_, _) =>
    case Element(_, _, _, kids) =>
      MapAttrsKeepsIds(kids, f);
      IdsAppend([n], NodesSeq(kids));
      IdsAppend([MapAttrs(n, f)], NodesSeq(MapAttrsSeq(kids, f)));
  }

  /** Over a snapshot without repeated nodes, the patch holds exactly the touched elements' rewrites. */
  lemma {:induction false} PatchOfFacts(els: seq<Node>, n: nat, f: (string, seq<Attr>) -> seq<Attr>,
                                        touched: (string, seq<Attr>) -> bool)
    requires n <= |els| && Distinct(Ids(els))
    ensures forall k :: 0 <= k < n && els[k].Element? && touched(els[k].tag, els[k].attrs) ==>
              els[k].id in PatchOf(els, n, f, touched) &&
              PatchOf(els, n, f, touched)[els[k].id] == f(els[k].tag, els[k].attrs)
    ensures forall x :: x in PatchOf(els, n, f, touched) ==>
              exists k :: 0 <= k < n && els[k].id == x && els[k].Element? && touched(els[k].tag, els[k].attrs)
  {
    if n > 0 {
      PatchOfFacts(els, n - 1, f, touched);
      forall k | 0 <= k < n - 1
        ensures els[k].id != els[n - 1].id
      {
        DistinctAt(Ids(els), k, n - 1);
      }
    }
  }

  /**
    A pass that visits a snapshot holding every element it touches, and touches every element `f`
    changes, leaves the tree with `f` mapped over it.
  */
  lemma PatchIsMap(cs: seq<Node>, els: seq<Node>, f: (string, seq<Attr>) -> seq<Attr>,
                   touched: (string, seq<Attr>) -> bool)
    requires ValidForest(cs) && Distinct(Ids(els))
    requires forall e :: e in els ==> e in NodesSeq(cs)
    requires forall x :: x in NodesSeq(cs) && x.Element? && touched(x.tag, x.attrs) ==> x in els
    requires forall x :: x in NodesSeq(cs) && x.Element? && !touched(x.tag, x.attrs) ==> f(x.tag, x.attrs) == x.attrs
    ensures EditAttrsSeq(cs, PatchOf(els, |els|, f, touched)) == MapAttrsSeq(cs, f)
  {
    var m := PatchOf(els, |els|, f, touched);
    PatchOfFacts(els, |els|, f, touched);
    forall x | x in NodesSeq(cs) && x.Element?
      ensures Lookup(m, x.id, x.attrs) == f(x.tag, x.attrs)
    {
      if touched(x.tag, x.attrs) {
        var k :| 0 <= k < |els| && els[k] == x;
      } else if x.id in m {
        var k :| 0 <= k < |els| && els[k].id == x.id && els[k].Element? && touched(els[k].tag, els[k].attrs);
        SameIdSameNode(cs, els[k], x);
      }
    }
    EditAttrsIsMap(cs, m, f);
  }

  // ---------------------------------------------------------------- rewriting text

  /**
    A pass that visits the snapshot `querySelectorAll(sel)`, where `sel` selects every element the
    pass changes, leaves the tree with `f` mapped over every element.
  */
  lemma SnapshotPatchIsMap(d: Document, sel: Selector, f: (string, seq<Attr>) -> seq<Attr>,
                           touched: (string, seq<Attr>) -> bool)
    requires Valid(d)
    requires forall x: Node :: x.Element? && touched(x.tag, x.attrs) ==> Matches(sel, x, false)
    requires forall t, a :: !touched(t, a) ==> f(t, a) == a
    ensures var els := QuerySelectorAll(d, sel);
      EditAttrsDoc(d, PatchOf(els, |els|, f, touched)) == MapAttrsDoc(d, f)
  {
    var els := QuerySelectorAll(d, sel);
    SelectDistinct(d.nodes, sel, false);
    SelectFromTree(d.nodes, sel, false);
    forall x | x in NodesSeq(d.nodes) && x.Element? && touched(x.tag, x.attrs)
      ensures x in els
    {
      SelectComplete(d.nodes, sel, false, x);
    }
    PatchIsMap(d.nodes, els, f, touched);
  }

  lemma {:induction false} EditTextsKeepsIds(cs: seq<Node>, m: map<nat, string>)
    ensures Ids(NodesSeq(EditTextsSeq(cs, m))) == Ids(NodesSeq(cs))
  {
    if cs != [] {
      EditTextsKeepsIds(cs[1..], m);
      EditTextsNodeKeepsIds(cs[0], m);
      NodesSeqCons(EditTexts(cs[0], m), EditTextsSeq(cs[1..], m));
      IdsAppend(Nodes(cs[0]), NodesSeq(cs[1..]));
      IdsAppend(Nodes(EditTexts(cs[0], m)), NodesSeq(EditTextsSeq(cs[1..], m)));
    }
  }

  lemma {:induction false} EditTextsNodeKeepsIds(n: Node, m: map<nat, string>)
    ensures Ids(Nodes(EditTexts(n, m))) == Ids(Nodes(n))
  {
    match n
    case TextNode(_, _) =>
    case Element(_, _, _, kids) =>
      EditTextsKeepsIds(kids, m);
      IdsAppend([n], NodesSeq(kids));
      IdsAppend([EditTexts(n, m)], NodesSeq(EditTextsSeq(kids, m)));
  }

  lemma EditTextsValid(cs: seq<Node>, m: map<nat, string>)
    requires ValidForest(cs)
    ensures ValidForest(EditTextsSeq(cs, m))
  {
    EditTextsKeepsIds(cs, m);
  }

  lemma {:induction false} EditTextsCompose(cs: seq<Node>, m1: map<nat, string>, m2: map<nat, string>)
    ensures EditTextsSeq(EditTextsSeq(cs, m1), m2) == EditTextsSeq(cs, m1 + m2)
  {
    if cs != [] {
      EditTextsCompose(cs[1..], m1, m2);
      EditTextsNodeCompose(cs[0], m1, m2);
      var r := EditTextsSeq(cs, m1);
      assert r[0] == EditTexts(cs[0], m1) && r[1..] == EditTextsSeq(cs[1..], m1);
    }
  }

  lemma {:induction false} EditTextsNodeCompose(n: Node, m1: map<nat, string>, m2: map<nat, string>)
    ensures EditTexts(EditTexts(n, m1), m2) == EditTexts(n, m1 + m2)
  {
    match n
    case TextNode(_, _) =>
    case Element(_, _, _, kids) =>
      EditTextsCompose(kids, m1, m2);
  }

  lemma {:induction false} PruneEditTextsCommute(cs: seq<Node>, v: set<nat>, m: map<nat, string>)
    ensures EditTextsSeq(PruneSeq(cs, v), m) == PruneSeq(EditTextsSeq(cs, m), v)
  {
    if cs != [] {
      PruneEditTextsCommute(cs[1..], v, m);
      var e := EditTextsSeq(cs, m);
      assert e[0] == EditTexts(cs[0], m) && e[1..] == EditTextsSeq(cs[1..], m);
      if cs[0].id !in v {
        var p := PruneSeq(cs, v);
        assert p[0] == Prune(cs[0], v) && p[1..] == PruneSeq(cs[1..], v);
        PruneEditTextsNodeCommute(cs[0], v, m);
      }
    }
  }

  lemma {:induction false} PruneEditTextsNodeCommute(n: Node, v: set<nat>, m: map<nat, string>)
    ensures EditTexts(Prune(n, v), m) == Prune(EditTexts(n, m), v)
  {
    match n
    case TextNode(_, _) =>
    case Element(_, _, _, kids) =>
      PruneEditTextsCommute(kids, v, m);
  }

  // ---------------------------------------------------------------- one more visited node

  lemma PatchOfStep(els: seq<Node>, n: nat, f: (string, seq<Attr>) -> seq<Attr>, touched: (string, seq<Attr>) -> bool)
    requires n < |els|
    ensures var e := els[n];
      PatchOf(els, n + 1, f, touched) ==
        if e.Element? && touched(e.tag, e.attrs) then PatchOf(els, n, f, touched) + map[e.id := f(e.tag, e.attrs)]
        else PatchOf(els, n, f, touched)
  {
    var e := els[n];
    var m := PatchOf(els, n, f, touched);
    if e.Element? && touched(e.tag, e.attrs) {
      assert m + map[e.id := f(e.tag, e.attrs)] == m[e.id := f(e.tag, e.attrs)];
    }
  }

  lemma WhereStep(els: seq<Node>, n: nat, p: Node -> bool)
    requires n < |els|
    ensures IdsWhere(els, n + 1, p) == IdsWhere(els, n, p) + (if p(els[n]) then {els[n].id} else {})
    ensures CountWhere(els, n + 1, p) == CountWhere(els, n, p) + (if p(els[n]) then 1 else 0)
  {
  }

  /** One more visited node of a filtered detach: it is detached exactly when it passes the filter. */
  lemma PruneWhereStep(d: Document, els: seq<Node>, n: nat, p: Node -> bool)
    requires n < |els|
    ensures PruneDoc(d, IdsWhere(els, n + 1, p)) ==
      if p(els[n]) then PruneDoc(PruneDoc(d, IdsWhere(els, n, p)), {els[n].id}) else PruneDoc(d, IdsWhere(els, n, p))
    ensures CountWhere(els, n + 1, p) == CountWhere(els, n, p) + (if p(els[n]) then 1 else 0)
  {
    WhereStep(els, n, p);
    if p(els[n]) {
      PruneDocTwice(d, IdsWhere(els, n, p), {els[n].id});
    } else {
      assert IdsWhere(els, n + 1, p) == IdsWhere(els, n, p);
    }
  }

  /** One more visited element of a patch, on a whole document. */
  lemma PatchOfDocStep(d: Document, els: seq<Node>, n: nat, f: (string, seq<Attr>) -> seq<Attr>,
                       touched: (string, seq<Attr>) -> bool)
    requires n < |els| && els[n].Element?
    ensures var e := els[n];
      EditAttrsDoc(d, PatchOf(els, n + 1, f, touched)) ==
        if touched(e.tag, e.attrs)
        then EditAttrsDoc(EditAttrsDoc(d, PatchOf(els, n, f, touched)), map[e.id := f(e.tag, e.attrs)])
        else EditAttrsDoc(d, PatchOf(els, n, f, touched))
  {
    var e := els[n];
    PatchOfStep(els, n, f, touched);
    EditAttrsDocTwice(d, PatchOf(els, n, f, touched), map[e.id := f(e.tag, e.attrs)]);
  }

  /**
    One more write to the live attribute list of element `id`: whether or not it was written
    before, the document is the original with that element's list replaced by the latest one.
  */
  lemma LiveAttrsStep(d: Document, id: nat, current: seq<Attr>, next: seq<Attr>, written: bool)
    ensures EditAttrsDoc(if written then EditAttrsDoc(d, map[id := current]) else d, map[id := next]) ==
      EditAttrsDoc(d, map[id := next])
  {
    if written {
      EditAttrsDocTwice(d, map[id := current], map[id := next]);
      assert map[id := current] + map[id := next] == map[id := next];
    }
  }

  lemma TextPatchOfStep(ts: seq<Node>, n: nat, p: Node -> bool, g: Node -> string)
    requires n < |ts|
    ensures TextPatchOf(ts, n + 1, p, g) ==
      if p(ts[n]) then TextPatchOf(ts, n, p, g) + map[ts[n].id := g(ts[n])] else TextPatchOf(ts, n, p, g)
  {
    var m := TextPatchOf(ts, n, p, g);
    if p(ts[n]) {
      assert m + map[ts[n].id := g(ts[n])] == m[ts[n].id := g(ts[n])];
    }
  }

  // ---------------------------------------------------------------- empty edits

  lemma {:induction false} PruneNothing(cs: seq<Node>)
    ensures PruneSeq(cs, {}) == cs
  {
    if cs != [] {
      PruneNothing(cs[1..]);
      PruneNodeNothing(cs[0]);
      assert cs == [cs[0]] + cs[1..];
    }
  }

  lemma {:induction false} PruneNodeNothing(n: Node)
    ensures Prune(n, {}) == n
  {
    match n
    case TextNode(_, _) =>
    case Element(_, _, _, kids) =>
      PruneNothing(kids);
  }

  lemma {:induction false} EditAttrsNothing(cs: seq<Node>)
    ensures EditAttrsSeq(cs, map[]) == cs
  {
    if cs != [] {
      EditAttrsNothing(cs[1..]);
      EditAttrsNodeNothing(cs[0]);
      assert cs == [cs[0]] + cs[1..];
    }
  }

  lemma {:induction false} EditAttrsNodeNothing(n: Node)
    ensures EditAttrs(n, map[]) == n
  {
    match n
    case TextNode(_, _) =>
    case Element(_, _, _, kids) =>
      EditAttrsNothing(kids);
  }

  lemma {:induction false} EditTextsNothing(cs: seq<Node>)
    ensures EditTextsSeq(cs, map[]) == cs
  {
    if cs != [] {
      EditTextsNothing(cs[1..]);
      EditTextsNodeNothing(cs[0]);
      assert cs == [cs[0]] + cs[1..];
    }
  }

  lemma {:induction false} EditTextsNodeNothing(n: Node)
    ensures EditTexts(n, map[]) == n
  {
    match n
    case TextNode(_, _) =>
    case Element(_, _, _, kids) =>
      EditTextsNothing(kids);
  }

  /** The empty edits leave a document as it is. */
  lemma NothingDoc(d: Document)
    ensures PruneDoc(d, {}) == d && EditAttrsDoc(d, map[]) == d && EditTextsDoc(d, map[]) == d
  {
    PruneNothing(d.nodes);
    EditAttrsNothing(d.nodes);
    EditTextsNothing(d.nodes);
  }

  // ---------------------------------------------------------------- edits of a whole document

  lemma PruneDocTwice(d: Document, v: set<nat>, w: set<nat>)
    ensures PruneDoc(PruneDoc(d, v), w) == PruneDoc(d, v + w)
  {
    PruneCompose(d.nodes, v, w);
  }

  lemma EditAttrsDocTwice(d: Document, e: map<nat, seq<Attr>>, m: map<nat, seq<Attr>>)
    ensures EditAttrsDoc(EditAttrsDoc(d, e), m) == EditAttrsDoc(d, e + m)
  {
    EditAttrsCompose(d.nodes, e, m);
  }

  /** An attribute rewrite after some detaching is the same rewrite made before it. */
  lemma EditAttrsAfterPrune(d: Document, e: map<nat, seq<Attr>>, v: set<nat>, m: map<nat, seq<Attr>>)
    ensures EditAttrsDoc(PruneDoc(EditAttrsDoc(d, e), v), m) == PruneDoc(EditAttrsDoc(d, e + m), v)
  {
    PruneEditAttrsCommute(EditAttrsSeq(d.nodes, e), v, m);
    EditAttrsCompose(d.nodes, e, m);
  }

  /** A rewrite and then more detaching, after earlier rewrites and detaching, compose. */
  lemma EditPruneStep(d: Document, e: map<nat, seq<Attr>>, v: set<nat>, m: map<nat, seq<Attr>>, w: set<nat>)
    ensures PruneDoc(EditAttrsDoc(PruneDoc(EditAttrsDoc(d, e), v), m), w) == PruneDoc(EditAttrsDoc(d, e + m), v + w)
  {
    EditAttrsAfterPrune(d, e, v, m);
    PruneDocTwice(EditAttrsDoc(d, e + m), v, w);
  }

  /** A text rewrite after some detaching is the same rewrite made before it. */
  lemma EditTextsAfterPrune(d: Document, e: map<nat, string>, v: set<nat>, m: map<nat, string>)
    ensures EditTextsDoc(PruneDoc(EditTextsDoc(d, e), v), m) == PruneDoc(EditTextsDoc(d, e + m), v)
  {
    PruneEditTextsCommute(EditTextsSeq(d.nodes, e), v, m);
    EditTextsCompose(d.nodes, e, m);
  }

  lemma PruneDocValid(d: Document, v: set<nat>)
    requires Valid(d)
    ensures Valid(PruneDoc(d, v))
  {
    PruneValid(d.nodes, v);
  }

  lemma EditAttrsDocValid(d: Document, m: map<nat, seq<Attr>>)
    requires Valid(d)
    ensures Valid(EditAttrsDoc(d, m))
  {
    EditAttrsValid(d.nodes, m);
  }

  lemma EditTextsDocValid(d: Document, m: map<nat, string>)
    requires Valid(d)
    ensures Valid(EditTextsDoc(d, m))
  {
    EditTextsValid(d.nodes, m);
  }

  lemma MapAttrsDocValid(d: Document, f: (string, seq<Attr>) -> seq<Attr>)
    requires Valid(d)
    ensures Valid(MapAttrsDoc(d, f))
  {
    MapAttrsKeepsIds(d.nodes, f);
  }

  // ---------------------------------------------------------------- what a removal pass leaves

  /** An id in `IdsWhere` belongs to a visited node that satisfies `p`. */
  lemma {:induction false} IdsWhereHas(els: seq<Node>, n: nat, p: Node -> bool, v: nat)
    requires n <= |els| && v in IdsWhere(els, n, p)
    ensures exists k :: 0 <= k < n && els[k].id == v && p(els[k])
  {
    if v !in IdsWhere(els, n - 1, p) {
      assert els[n - 1].id == v && p(els[n - 1]);
    } else {
      IdsWhereHas(els, n - 1, p, v);
    }
  }

  /**
    A pass that detaches the nodes of a snapshot for `sel` that satisfy `p` detaches exactly the
    elements of the tree that match `sel` and satisfy `p`, when `sel` looks at no ancestor.
  */
  lemma SelectedRemovalIff(d: Document, sel: Selector, p: Node -> bool, x: Node)
    requires Valid(d) && !sel.InsideWithAttr?
    requires x in NodesSeq(d.nodes) && x.Element?
    ensures var els := QuerySelectorAll(d, sel);
      x.id in IdsWhere(els, |els|, p) <==> Matches(sel, x, false) && p(x)
  {
    var els := QuerySelectorAll(d, sel);
    SelectFromTree(d.nodes, sel, false);
    SelectDistinct(d.nodes, sel, false);
    if x.id in IdsWhere(els, |els|, p) {
      IdsWhereHas(els, |els|, p, x.id);
      var k :| 0 <= k < |els| && els[k].id == x.id && p(els[k]);
      assert els[k] in els;
      SameIdSameNode(d.nodes, els[k], x);
    }
    if Matches(sel, x, false) && p(x) {
      SelectComplete(d.nodes, sel, false, x);
      var k :| 0 <= k < |els| && els[k] == x;
      IdsWhereIff(els, |els|, p, k);
    }
  }

  /** Once every element of tag `t` is detached, no element of tag `t` is left to select. */
  lemma {:induction false} PruneSelectsNone(cs: seq<Node>, t: string, v: set<nat>, inside: bool)
    requires forall x :: x in SelectSeq(cs, Type(t), inside) ==> x.id in v
    ensures SelectSeq(PruneSeq(cs, v), Type(t), inside) == []
  {
    if cs != [] {
      assert SelectSeq(cs, Type(t), inside) == Select(cs[0], Type(t), inside) + SelectSeq(cs[1..], Type(t), inside);
      PruneSelectsNone(cs[1..], t, v, inside);
      if cs[0].id !in v {
        PruneNodeSelectsNone(cs[0], t, v, inside);
        var r := [Prune(cs[0], v)] + PruneSeq(cs[1..], v);
        assert r[0] == Prune(cs[0], v) && r[1..] == PruneSeq(cs[1..], v);
      }
    }
  }

  lemma {:induction false} PruneNodeSelectsNone(n: Node, t: string, v: set<nat>, inside: bool)
    requires n.id !in v
    requires forall x :: x in Select(n, Type(t), inside) ==> x.id in v
    ensures Select(Prune(n, v), Type(t), inside) == []
  {
    match n
    case TextNode(_, _) =>
    case Element(i, tag, a, kids) =>
      PruneSelectsNone(kids, t, v, inside);
  }

  /** A query never selects more elements than `*` does. */
  lemma {:induction false} SelectAtMostAll(cs: seq<Node>, sel: Selector, inside: bool, outer: bool)
    ensures |SelectSeq(cs, sel, inside)| <= |SelectSeq(cs, Universal, outer)|
  {
    if cs != [] {
      SelectNodeAtMostAll(cs[0], sel, inside, outer);
      SelectAtMostAll(cs[1..], sel, inside, outer);
    }
  }

  lemma {:induction false} SelectNodeAtMostAll(n: Node, sel: Selector, inside: bool, outer: bool)
    ensures |Select(n, sel, inside)| <= |Select(n, Universal, outer)|
  {
    match n
    case TextNode(_, _) =>
    case Element(_, tag, _, kids) =>
      SelectAtMostAll(kids, sel, inside || Enters(sel, tag), outer || Enters(Universal, tag));
  }

  /** A query that looks at no ancestor selects something exactly when some element of `*` matches it. */
  lemma SomeSelectedIff(d: Document, sel: Selector)
    requires !sel.InsideWithAttr?
    ensures HasMatch(d, sel) <==>
      exists i :: 0 <= i < |QuerySelectorAll(d, Universal)| && QuerySelectorAll(d, Universal)[i].Element? &&
        Matches(sel, QuerySelectorAll(d, Universal)[i], false)
  {
    var all := QuerySelectorAll(d, Universal);
    SelectFromTree(d.nodes, sel, false);
    SelectFromTree(d.nodes, Universal, false);
    if HasMatch(d, sel) {
      var x := QuerySelectorAll(d, sel)[0];
      assert x in QuerySelectorAll(d, sel);
      SelectComplete(d.nodes, Universal, false, x);
      var i :| 0 <= i < |all| && all[i] == x;
    }
    if i :| 0 <= i < |all| && all[i].Element? && Matches(sel, all[i], false) {
      assert all[i] in all;
      SelectComplete(d.nodes, sel, false, all[i]);
    }
  }
}
