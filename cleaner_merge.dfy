/**
  The path-merging pass: every `path` is filed under the key `fill-stroke-stroke-width` (an absent
  attribute written `null`); in each group of two or more, the first path takes the space-joined
  `d` of the whole group and the others are detached.
*/
module CleanerMerge {
  import opened Wrappers
  import opened Text
  import opened Dom
  import opened DomFacts

  /** An attribute value in a template string: `null` when absent. */
  function KeyPart(v: Option<string>): string
  {
    match v
    case None => "null"
    case Some(s) => s
  }

  /** `${fill}-${stroke}-${stroke-width}` */
  function MergeKey(p: Node): string
  {
    var a := AttrsOf(p);
    KeyPart(GetAttr(a, "fill")) + "-" + KeyPart(GetAttr(a, "stroke")) + "-" + KeyPart(GetAttr(a, "stroke-width"))
  }

  /** The members of group `k` after filing `ps[..n]`, in document order. */
  function Group<K(==)>(ps: seq<Node>, n: nat, key: Node -> K, k: K): seq<Node>
    requires n <= |ps|
  {
    if n == 0 then []
    else Group(ps, n - 1, key, k) + (if key(ps[n - 1]) == k then [ps[n - 1]] else [])
  }

  /** The group keys after filing `ps[..n]`, in the order the groups were created. */
  function GroupKeys<K(==)>(ps: seq<Node>, n: nat, key: Node -> K): seq<K>
    requires n <= |ps|
  {
    if n == 0 then []
    else
      var ks := GroupKeys(ps, n - 1, key);
      if key(ps[n - 1]) in ks then ks else ks + [key(ps[n - 1])]
  }

  /** A path's `d` as `Array.join` writes it: empty when absent. */
  function DOf(p: Node): string
  {
    GetAttr(AttrsOf(p), "d").GetOr("")
  }

  function JoinedD(g: seq<Node>): string
  {
    Join(seq(|g|, i requires 0 <= i < |g| => DOf(g[i])), " ")
  }

  /** The ids of every member of `g` but the first. */
  function TailIds(g: seq<Node>): set<nat>
  {
    set i | 1 <= i < |g| :: g[i].id
  }

  /** The edit the merge makes to a group's first path: its `d` set to the group's joined `d`. */
  function HeadEdit(g: seq<Node>): map<nat, seq<Attr>>
    requires g != []
  {
    map[g[0].id := MergedHead(g)]
  }

  /** A group's first path with its `d` set to the group's joined `d`. */
  function MergedHead(g: seq<Node>): seq<Attr>
    requires g != []
  {
    SetAttr(AttrsOf(g[0]), "d", JoinedD(g))
  }

  /** The groups of the keys `keys`, in that order, over the whole snapshot `ps`. */
  function GroupsOf<K(==)>(ps: seq<Node>, key: Node -> K, keys: seq<K>): seq<seq<Node>>
  {
    seq(|keys|, i requires 0 <= i < |keys| => Group(ps, |ps|, key, keys[i]))
  }

  /** The `d` rewrites made while merging the groups `gs[..j]`. */
  function MergeEdits(gs: seq<seq<Node>>, j: nat): map<nat, seq<Attr>>
    requires j <= |gs|
  {
    if j == 0 then map[]
    else
      var m := MergeEdits(gs, j - 1);
      if |gs[j - 1]| > 1 then m + HeadEdit(gs[j - 1]) else m
  }

  /** The paths detached while merging the groups `gs[..j]`. */
  function MergeVictims(gs: seq<seq<Node>>, j: nat): set<nat>
    requires j <= |gs|
  {
    if j == 0 then {}
    else
      var v := MergeVictims(gs, j - 1);
      if |gs[j - 1]| > 1 then v + TailIds(gs[j - 1]) else v
  }

  /** The `merged` counter after merging the groups `gs[..j]`. */
  function MergedUpTo(gs: seq<seq<Node>>, j: nat): nat
    requires j <= |gs|
  {
    if j == 0 then 0
    else MergedUpTo(gs, j - 1) + (if |gs[j - 1]| > 1 then |gs[j - 1]| - 1 else 0)
  }

  /** The groups of the document's paths, in the order the groups were created. */
  function PathGroups(d: Document): seq<seq<Node>>
  {
    var ps := QuerySelectorAll(d, Type("path"));
    GroupsOf(ps, MergeKey, GroupKeys(ps, |ps|, MergeKey))
  }

  function AfterMerge(d: Document): Document
  {
    var gs := PathGroups(d);
    PruneDoc(EditAttrsDoc(d, MergeEdits(gs, |gs|)), MergeVictims(gs, |gs|))
  }

  function PathsMerged(d: Document): nat
  {
    var gs := PathGroups(d);
    MergedUpTo(gs, |gs|)
  }

  /**
    The tree after merging the groups `gs[..j]` one at a time: a group of two or more has its
    head rewritten and then its tail detached; a smaller group changes nothing.
  */
  function MergeSteps(d: Document, gs: seq<seq<Node>>, j: nat): Document
    requires j <= |gs|
  {
    if j == 0 then d
    else
      var pre := MergeSteps(d, gs, j - 1);
      var g := gs[j - 1];
      if |g| > 1 then PruneDoc(EditAttrsDoc(pre, HeadEdit(g)), TailIds(g)) else pre
  }

  /** Merging group by group makes all the rewrites, then all the detaching. */
  lemma {:induction false} MergeStepsAre(d: Document, gs: seq<seq<Node>>, j: nat)
    requires j <= |gs|
    ensures MergeSteps(d, gs, j) == PruneDoc(EditAttrsDoc(d, MergeEdits(gs, j)), MergeVictims(gs, j))
  {
    if j == 0 {
      NothingDoc(d);
    } else {
      MergeStepsAre(d, gs, j - 1);
      var g := gs[j - 1];
      if |g| > 1 {
        MergeOneGroup(d, MergeSteps(d, gs, j - 1), MergeEdits(gs, j - 1), MergeVictims(gs, j - 1), g);
      }
    }
  }

  /** Merging every group of a valid document one at a time gives the merge pass's tree, still valid. */
  lemma MergeStepsDone(d: Document)
    requires Valid(d)
    ensures var gs := PathGroups(d);
      MergeSteps(d, gs, |gs|) == AfterMerge(d) && Valid(AfterMerge(d))
  {
    var gs := PathGroups(d);
    MergeStepsAre(d, gs, |gs|);
    EditAttrsDocValid(d, MergeEdits(gs, |gs|));
    PruneDocValid(EditAttrsDoc(d, MergeEdits(gs, |gs|)), MergeVictims(gs, |gs|));
  }

  lemma MergeOneGroup(d: Document, pre: Document, e: map<nat, seq<Attr>>, v: set<nat>, g: seq<Node>)
    requires pre == PruneDoc(EditAttrsDoc(d, e), v) && |g| > 1
    ensures PruneDoc(EditAttrsDoc(pre, HeadEdit(g)), TailIds(g)) ==
      PruneDoc(EditAttrsDoc(d, e + HeadEdit(g)), v + TailIds(g))
  {
    EditPruneStep(d, e, v, HeadEdit(g), TailIds(g));
  }

  // ---------------------------------------------------------------- grouping facts

  /** A group holds exactly the filed paths with its key, in order. */
  lemma {:induction false} GroupMembers<K>(ps: seq<Node>, n: nat, key: Node -> K, k: K)
    requires n <= |ps|
    ensures forall x :: x in Group(ps, n, key, k) ==> key(x) == k && x in ps[..n]
    ensures Group(ps, n, key, k) != [] <==> exists j :: 0 <= j < n && key(ps[j]) == k
  {
    if n > 0 {
      GroupMembers(ps, n - 1, key, k);
      assert ps[..n - 1] <= ps[..n];
      assert ps[n - 1] == ps[..n][n - 1];
    }
  }

  /** A key has a group exactly when some filed path has that key. */
  lemma {:induction false} GroupKeysIff<K>(ps: seq<Node>, n: nat, key: Node -> K, k: K)
    requires n <= |ps|
    ensures k in GroupKeys(ps, n, key) <==> exists j :: 0 <= j < n && key(ps[j]) == k
  {
    if n > 0 {
      GroupKeysIff(ps, n - 1, key, k);
    }
  }

  predicate NoRepeats<K(==)>(ks: seq<K>)
  {
    forall i, j :: 0 <= i < j < |ks| ==> ks[i] != ks[j]
  }

  /** Every key names one group: the key list has no repeats. */
  lemma {:induction false} GroupKeysDistinct<K>(ps: seq<Node>, n: nat, key: Node -> K)
    requires n <= |ps|
    ensures NoRepeats(GroupKeys(ps, n, key))
  {
    if n > 0 {
      GroupKeysDistinct(ps, n - 1, key);
      var ks := GroupKeys(ps, n - 1, key);
      var k := key(ps[n - 1]);
      if k !in ks {
        var ks2 := ks + [k];
        assert GroupKeys(ps, n, key) == ks2;
        forall i, j | 0 <= i < j < |ks2| ensures ks2[i] != ks2[j] {
          assert ks2[i] == ks[i];
          if j < |ks| {
            assert ks2[j] == ks[j];
          } else {
            assert ks[i] in ks;
          }
        }
      }
    }
  }

  /** The first member of a group is the first filed path with that key. */
  lemma {:induction false} GroupHeadIndex<K>(ps: seq<Node>, n: nat, key: Node -> K, k: K) returns (p: nat)
    requires n <= |ps| && Group(ps, n, key, k) != []
    ensures p < n && Group(ps, n, key, k)[0] == ps[p] && key(ps[p]) == k
    ensures forall j :: 0 <= j < p ==> key(ps[j]) != k
  {
    GroupMembers(ps, n - 1, key, k);
    if Group(ps, n - 1, key, k) != [] {
      p := GroupHeadIndex(ps, n - 1, key, k);
    } else {
      p := n - 1;
    }
  }

  /**
    Over a snapshot without repeated nodes, path `t` is among the non-first members of group `k`
    exactly when it has key `k` and an earlier path has the same key.
  */
  lemma {:induction false} TailMembership<K>(ps: seq<Node>, n: nat, key: Node -> K, k: K, t: nat)
    requires n <= |ps| && t < |ps| && Distinct(Ids(ps))
    ensures var g := Group(ps, n, key, k);
      ps[t].id in TailIds(g) <==> t < n && key(ps[t]) == k && exists j :: 0 <= j < t && key(ps[j]) == k
  {
    if n > 0 {
      TailMembership(ps, n - 1, key, k, t);
      var h := Group(ps, n - 1, key, k);
      var g := Group(ps, n, key, k);
      if key(ps[n - 1]) == k {
        assert g == h + [ps[n - 1]];
        TailIdsAppend(h, ps[n - 1]);
        if t == n - 1 {
          GroupMembers(ps, n - 1, key, k);
          assert ps[t].id in TailIds(g) <==> h != [];
        } else {
          DistinctAt(Ids(ps), t, n - 1);
          assert ps[t].id in TailIds(g) <==> ps[t].id in TailIds(h);
        }
      } else {
        assert g == h;
      }
    }
  }

  /** Appending a member adds its id to the tail ids unless it is the first. */
  lemma TailIdsAppend(h: seq<Node>, x: Node)
    ensures TailIds(h + [x]) == if h == [] then {} else TailIds(h) + {x.id}
  {
    var g := h + [x];
    forall y ensures y in TailIds(g) <==> y in (if h == [] then {} else TailIds(h) + {x.id}) {
      if y in TailIds(g) {
        var i :| 1 <= i < |g| && g[i].id == y;
        if i < |h| {
          assert g[i] == h[i];
        }
      }
      if y in TailIds(h) {
        var i :| 1 <= i < |h| && h[i].id == y;
        assert g[i] == h[i];
      }
      if h != [] && y == x.id {
        assert g[|h|] == x;
      }
    }
  }

  /**
    Filing one more path keeps a map from each created key to its group, with the keys listed in
    creation order: a new key gets an empty group and goes to the end of the list.
  */
  lemma FileStep<K>(ps: seq<Node>, i: nat, key: Node -> K, groups: map<K, seq<Node>>, order: seq<K>)
    requires i < |ps| && order == GroupKeys(ps, i, key)
    requires forall k :: k in groups <==> k in order
    requires forall k :: k in groups ==> groups[k] == Group(ps, i, key, k)
    ensures var k0 := key(ps[i]);
      var start := if k0 in groups then groups else groups[k0 := []];
      var groups2 := start[k0 := start[k0] + [ps[i]]];
      var order2 := if k0 in groups then order else order + [k0];
      order2 == GroupKeys(ps, i + 1, key) &&
      (forall k :: k in groups2 <==> k in order2) &&
      (forall k :: k in groups2 ==> groups2[k] == Group(ps, i + 1, key, k))
  {
    var k0 := key(ps[i]);
    if k0 !in groups {
      GroupKeysIff(ps, i, key, k0);
      GroupMembers(ps, i, key, k0);
      assert Group(ps, i, key, k0) == [];
    }
  }

  /** The `pathGroups` dictionary after filing `ps[..n]`, built the way the source builds it. */
  function FiledGroups<K(==)>(ps: seq<Node>, n: nat, key: Node -> K): map<K, seq<Node>>
    requires n <= |ps|
  {
    if n == 0 then map[]
    else
      var m := FiledGroups(ps, n - 1, key);
      var k := key(ps[n - 1]);
      var start := if k in m then m else m[k := []];
      start[k := start[k] + [ps[n - 1]]]
  }

  /** The dictionary holds a group for exactly the created keys, each the paths filed under it. */
  lemma {:induction false} FiledGroupsAre<K>(ps: seq<Node>, n: nat, key: Node -> K)
    requires n <= |ps|
    ensures var m := FiledGroups(ps, n, key);
      (forall k :: k in m <==> k in GroupKeys(ps, n, key)) &&
      (forall k :: k in m ==> m[k] == Group(ps, n, key, k))
  {
    if n > 0 {
      FiledGroupsAre(ps, n - 1, key);
      FileStep(ps, n - 1, key, FiledGroups(ps, n - 1, key), GroupKeys(ps, n - 1, key));
    }
  }

  /** The summed sizes of the groups `keys[..j]` after filing `ps[..n]`. */
  function SizeSum<K(==)>(ps: seq<Node>, n: nat, key: Node -> K, keys: seq<K>, j: nat): nat
    requires n <= |ps| && j <= |keys|
  {
    if j == 0 then 0 else SizeSum(ps, n, key, keys, j - 1) + |Group(ps, n, key, keys[j - 1])|
  }

  lemma {:induction false} SizeSumStep<K>(ps: seq<Node>, n: nat, key: Node -> K, keys: seq<K>, j: nat)
    requires 0 < n <= |ps| && j <= |keys|
    ensures SizeSum(ps, n, key, keys, j) == SizeSum(ps, n - 1, key, keys, j) + multiset(keys[..j])[key(ps[n - 1])]
  {
    if j > 0 {
      SizeSumStep(ps, n, key, keys, j - 1);
      assert keys[..j] == keys[..j - 1] + [keys[j - 1]];
    }
  }

  lemma {:induction false} SizeSumSame<K>(ps: seq<Node>, n: nat, key: Node -> K, a: seq<K>, b: seq<K>, j: nat)
    requires n <= |ps| && j <= |a| && j <= |b| && a[..j] == b[..j]
    ensures SizeSum(ps, n, key, a, j) == SizeSum(ps, n, key, b, j)
  {
    if j > 0 {
      assert a[j - 1] == a[..j][j - 1] == b[..j][j - 1] == b[j - 1];
      assert a[..j - 1] == a[..j][..j - 1];
      assert b[..j - 1] == b[..j][..j - 1];
      SizeSumSame(ps, n, key, a, b, j - 1);
    }
  }

  lemma DistinctCount<K>(ks: seq<K>, k: K)
    requires NoRepeats(ks)
    ensures multiset(ks)[k] == if k in ks then 1 else 0
    decreases |ks|
  {
    if ks != [] {
      assert ks == [ks[0]] + ks[1..];
      DistinctCount(ks[1..], k);
    }
  }

  /** The groups partition the filed paths: their sizes add up to the number of paths. */
  lemma {:induction false} GroupSizesAddUp<K>(ps: seq<Node>, n: nat, key: Node -> K)
    requires n <= |ps|
    ensures SizeSum(ps, n, key, GroupKeys(ps, n, key), |GroupKeys(ps, n, key)|) == n
  {
    if n > 0 {
      GroupSizesAddUp(ps, n - 1, key);
      GroupKeysDistinct(ps, n - 1, key);
      if key(ps[n - 1]) in GroupKeys(ps, n - 1, key) {
        SizesOldKey(ps, n, key);
      } else {
        SizesNewKey(ps, n, key);
      }
    }
  }

  lemma SizesOldKey<K>(ps: seq<Node>, n: nat, key: Node -> K)
    requires 0 < n <= |ps|
    requires NoRepeats(GroupKeys(ps, n - 1, key)) && key(ps[n - 1]) in GroupKeys(ps, n - 1, key)
    ensures var ks := GroupKeys(ps, n - 1, key);
      GroupKeys(ps, n, key) == ks &&
      SizeSum(ps, n, key, ks, |ks|) == SizeSum(ps, n - 1, key, ks, |ks|) + 1
  {
    var ks := GroupKeys(ps, n - 1, key);
    DistinctCount(ks, key(ps[n - 1]));
    assert ks[..|ks|] == ks;
    SizeSumStep(ps, n, key, ks, |ks|);
  }

  lemma SizesNewKey<K>(ps: seq<Node>, n: nat, key: Node -> K)
    requires 0 < n <= |ps|
    requires key(ps[n - 1]) !in GroupKeys(ps, n - 1, key)
    ensures var ks := GroupKeys(ps, n - 1, key);
      var ks2 := GroupKeys(ps, n, key);
      SizeSum(ps, n, key, ks2, |ks2|) == SizeSum(ps, n - 1, key, ks, |ks|) + 1
  {
    var ks := GroupKeys(ps, n - 1, key);
    var k0 := key(ps[n - 1]);
    var ks2 := ks + [k0];
    assert GroupKeys(ps, n, key) == ks2;
    assert ks2[..|ks|] == ks[..|ks|] == ks;
    SizeSumSame(ps, n, key, ks2, ks, |ks|);
    assert multiset(ks)[k0] == 0;
    SizeSumStep(ps, n, key, ks, |ks|);
    NewKeyGroup(ps, n, key);
  }

  /** A path whose key has no group yet starts a group of its own. */
  lemma NewKeyGroup<K>(ps: seq<Node>, n: nat, key: Node -> K)
    requires 0 < n <= |ps|
    requires key(ps[n - 1]) !in GroupKeys(ps, n - 1, key)
    ensures Group(ps, n, key, key(ps[n - 1])) == [ps[n - 1]]
  {
    var k0 := key(ps[n - 1]);
    GroupKeysIff(ps, n - 1, key, k0);
    GroupMembers(ps, n - 1, key, k0);
    assert Group(ps, n - 1, key, k0) == [];
  }

  /** The summed sizes of the groups `gs[..j]`. */
  function Sizes(gs: seq<seq<Node>>, j: nat): nat
    requires j <= |gs|
  {
    if j == 0 then 0 else Sizes(gs, j - 1) + |gs[j - 1]|
  }

  /** Over non-empty groups, `merged` is the summed sizes less one per group. */
  lemma {:induction false} MergedIsSizes(gs: seq<seq<Node>>, j: nat)
    requires j <= |gs|
    requires forall i :: 0 <= i < j ==> gs[i] != []
    ensures MergedUpTo(gs, j) + j == Sizes(gs, j)
  {
    if j > 0 {
      MergedIsSizes(gs, j - 1);
    }
  }

  lemma {:induction false} SizesOfGroups<K>(ps: seq<Node>, key: Node -> K, keys: seq<K>, j: nat)
    requires j <= |keys|
    ensures Sizes(GroupsOf(ps, key, keys), j) == SizeSum(ps, |ps|, key, keys, j)
  {
    if j > 0 {
      SizesOfGroups(ps, key, keys, j - 1);
      assert GroupsOf(ps, key, keys)[j - 1] == Group(ps, |ps|, key, keys[j - 1]);
    }
  }

  /**
    `merged` is the sum over groups of the group size less one: the number of paths less the
    number of distinct keys.
  */
  lemma MergedCount(d: Document)
    ensures var ps := QuerySelectorAll(d, Type("path"));
      PathsMerged(d) == |ps| - |GroupKeys(ps, |ps|, MergeKey)|
  {
    var ps := QuerySelectorAll(d, Type("path"));
    var ks := GroupKeys(ps, |ps|, MergeKey);
    var gs := PathGroups(d);
    forall i | 0 <= i < |ks| ensures gs[i] != [] {
      GroupKeysIff(ps, |ps|, MergeKey, ks[i]);
      GroupMembers(ps, |ps|, MergeKey, ks[i]);
    }
    MergedIsSizes(gs, |gs|);
    SizesOfGroups(ps, MergeKey, ks, |ks|);
    GroupSizesAddUp(ps, |ps|, MergeKey);
  }

  /** A path is detached by merging `gs[..j]` exactly when it is in the tail of one of those groups. */
  lemma {:induction false} VictimsOfGroups(gs: seq<seq<Node>>, j: nat, x: nat)
    requires j <= |gs|
    ensures x in MergeVictims(gs, j) <==> exists i :: 0 <= i < j && x in TailIds(gs[i])
  {
    if j > 0 {
      VictimsOfGroups(gs, j - 1, x);
      if |gs[j - 1]| <= 1 {
        assert TailIds(gs[j - 1]) == {};
      }
    }
  }

  /**
    A path is rewritten by merging `gs[..j]` exactly when it heads one of those groups of two or
    more, and it takes that group's joined `d`.
  */
  lemma {:induction false} EditsOfGroups(gs: seq<seq<Node>>, j: nat, x: nat)
    requires j <= |gs|
    ensures x in MergeEdits(gs, j) <==> exists i :: 0 <= i < j && |gs[i]| > 1 && gs[i][0].id == x
    ensures x in MergeEdits(gs, j) ==>
      exists i :: 0 <= i < j && |gs[i]| > 1 && gs[i][0].id == x && MergeEdits(gs, j)[x] == MergedHead(gs[i])
  {
    if j > 0 {
      EditsOfGroups(gs, j - 1, x);
      var g := gs[j - 1];
      if |g| > 1 && g[0].id == x {
        assert MergeEdits(gs, j)[x] == MergedHead(g);
      }
    }
  }

  /** Two filed paths with the same key make a group of two or more. */
  lemma {:induction false} GroupTwo<K>(ps: seq<Node>, n: nat, key: Node -> K, i: nat, t: nat)
    requires i < t < n <= |ps| && key(ps[i]) == key(ps[t])
    ensures |Group(ps, n, key, key(ps[t]))| >= 2
  {
    if t < n - 1 {
      GroupTwo(ps, n - 1, key, i, t);
    } else {
      GroupMembers(ps, n - 1, key, key(ps[t]));
    }
  }

  /**
    A path is itself detached by the merge exactly when an earlier path has the same key: the
    first path of every group is never itself detached (it can still go with a detached path
    around it).
  */
  lemma MergeRemovedIff(d: Document, t: nat)
    requires Valid(d) && t < |QuerySelectorAll(d, Type("path"))|
    ensures var ps := QuerySelectorAll(d, Type("path"));
      var gs := PathGroups(d);
      ps[t].id in MergeVictims(gs, |gs|) <==> exists i :: 0 <= i < t && MergeKey(ps[i]) == MergeKey(ps[t])
  {
    var ps := QuerySelectorAll(d, Type("path"));
    var keys := GroupKeys(ps, |ps|, MergeKey);
    var gs := PathGroups(d);
    var x := ps[t].id;
    SelectDistinct(d.nodes, Type("path"), false);
    VictimsOfGroups(gs, |gs|, x);
    if x in MergeVictims(gs, |gs|) {
      var i :| 0 <= i < |gs| && x in TailIds(gs[i]);
      assert gs[i] == Group(ps, |ps|, MergeKey, keys[i]);
      TailMembership(ps, |ps|, MergeKey, keys[i], t);
    }
    if exists i :: 0 <= i < t && MergeKey(ps[i]) == MergeKey(ps[t]) {
      GroupKeysIff(ps, |ps|, MergeKey, MergeKey(ps[t]));
      var i :| 0 <= i < |keys| && keys[i] == MergeKey(ps[t]);
      assert gs[i] == Group(ps, |ps|, MergeKey, keys[i]);
      TailMembership(ps, |ps|, MergeKey, keys[i], t);
    }
  }

  /** Over distinct ids, path `t` has the id of group `k`'s head exactly when it is that head. */
  lemma HeadIdIff<K>(ps: seq<Node>, key: Node -> K, k: K, t: nat)
    requires t < |ps| && Distinct(Ids(ps)) && Group(ps, |ps|, key, k) != []
    ensures var g := Group(ps, |ps|, key, k);
      ps[t].id == g[0].id <==> key(ps[t]) == k && g[0] == ps[t]
  {
    var p := GroupHeadIndex(ps, |ps|, key, k);
    if p != t {
      DistinctAt(Ids(ps), p, t);
    }
  }

  /**
    The first path of a group of two or more takes the group's `d` values joined by spaces, in
    document order (an absent `d` joined as empty text); no other path's attributes change.
  */
  lemma MergeEditIff(d: Document, t: nat)
    requires Valid(d) && t < |QuerySelectorAll(d, Type("path"))|
    ensures var ps := QuerySelectorAll(d, Type("path"));
      var gs := PathGroups(d);
      var g := Group(ps, |ps|, MergeKey, MergeKey(ps[t]));
      var m := MergeEdits(gs, |gs|);
      g != [] &&
      (ps[t].id in m <==> g[0] == ps[t] && |g| > 1) &&
      (ps[t].id in m ==> m[ps[t].id] == SetAttr(AttrsOf(ps[t]), "d", JoinedD(g)))
  {
    var ps := QuerySelectorAll(d, Type("path"));
    var keys := GroupKeys(ps, |ps|, MergeKey);
    var gs := PathGroups(d);
    var g := Group(ps, |ps|, MergeKey, MergeKey(ps[t]));
    var m := MergeEdits(gs, |gs|);
    var x := ps[t].id;
    SelectDistinct(d.nodes, Type("path"), false);
    GroupKeysIff(ps, |ps|, MergeKey, MergeKey(ps[t]));
    GroupMembers(ps, |ps|, MergeKey, MergeKey(ps[t]));
    var k :| 0 <= k < |keys| && keys[k] == MergeKey(ps[t]);
    assert gs[k] == g;
    EditsOfGroups(gs, |gs|, x);
    if x in m {
      var i :| 0 <= i < |gs| && |gs[i]| > 1 && gs[i][0].id == x && m[x] == MergedHead(gs[i]);
      HeadIdIff(ps, MergeKey, keys[i], t);
      assert gs[i] == g;
    }
  }

  /**
    The key is built by plain concatenation, so paths whose colours differ can share a group:
    `fill="a-b" stroke="c"` and `fill="a" stroke="b-c"` both file under `a-b-c-null`.
  */
  lemma MergeKeyCollides()
    ensures MergeKey(Element(0, "path", [Attr("fill", "a-b"), Attr("stroke", "c")], [])) ==
            MergeKey(Element(1, "path", [Attr("fill", "a"), Attr("stroke", "b-c")], []))
  {
  }
}
