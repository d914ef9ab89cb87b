/**
  The attribute clean-up of `optimizeSvg`. Every `data-*` attribute is removed by name while a
  snapshot of the element's attribute list is walked, and then each Figma attribute is removed
  where it is present. With the unique attribute names a DOM element has, the result is the
  original list with exactly those attributes filtered out, every other one kept in order.
*/
module AttrStripping {
  import opened Text
  import opened Dom

  const DataPrefix := "data-"
  const FigmaAttributes: seq<string> := ["figma:type", "figma:id"]

  predicate IsData(a: Attr)
  {
    StartsWith(a.name, DataPrefix)
  }

  predicate NotData(a: Attr)
  {
    !IsData(a)
  }

  /** An attribute `optimizeSvg` leaves in place. */
  predicate Kept(a: Attr)
  {
    !IsData(a) && a.name !in FigmaAttributes
  }

  /** The attributes of `attrs` that satisfy `p`, in order. */
  function KeepIf(attrs: seq<Attr>, p: Attr -> bool): (r: seq<Attr>)
    ensures forall a :: a in r <==> a in attrs && p(a)
  {
    if attrs == [] then []
    else (if p(attrs[0]) then [attrs[0]] else []) + KeepIf(attrs[1..], p)
  }

  /** The attributes of `attrs` whose names are not in `names`, in order. */
  function WithoutNames(attrs: seq<Attr>, names: seq<string>): (r: seq<Attr>)
    ensures forall a :: a in r <==> a in attrs && a.name !in names
  {
    if attrs == [] then []
    else (if attrs[0].name in names then [] else [attrs[0]]) + WithoutNames(attrs[1..], names)
  }

  /** The element's live attribute list once the snapshot walk has visited `attrs[..n]`. */
  function DropData(attrs: seq<Attr>, n: nat): seq<Attr>
    requires n <= |attrs|
  {
    if n == 0 then attrs
    else
      var live := DropData(attrs, n - 1);
      if IsData(attrs[n - 1]) then RemoveAttr(live, attrs[n - 1].name) else live
  }

  /** The live list `attrs` after the `hasAttribute`-guarded removal of `names[..k]`. */
  function DropNamed(attrs: seq<Attr>, names: seq<string>, k: nat): seq<Attr>
    requires k <= |names|
  {
    if k == 0 then attrs
    else
      var live := DropNamed(attrs, names, k - 1);
      if HasAttr(live, names[k - 1]) then RemoveAttr(live, names[k - 1]) else live
  }

  /** An element's attributes after `optimizeSvg`'s two loops, the second one over `names`. */
  function Stripping(attrs: seq<Attr>, names: seq<string>): seq<Attr>
  {
    DropNamed(DropData(attrs, |attrs|), names, |names|)
  }

  function StrippedAttrs(tag: string, attrs: seq<Attr>): seq<Attr>
  {
    Stripping(attrs, FigmaAttributes)
  }

  /** Whether `optimizeSvg` changes the attributes of an element. */
  predicate Strippable(tag: string, attrs: seq<Attr>)
  {
    StrippedAttrs(tag, attrs) != attrs
  }

  // ---------------------------------------------------------------- removal by name

  /** `removeAttribute` drops one attribute when one of that name is present, and none otherwise. */
  lemma {:induction false} RemoveAttrLength(attrs: seq<Attr>, name: string)
    ensures |RemoveAttr(attrs, name)| == if HasAttr(attrs, name) then |attrs| - 1 else |attrs|
    ensures !HasAttr(attrs, name) ==> RemoveAttr(attrs, name) == attrs
  {
    if attrs != [] && attrs[0].name != name {
      RemoveAttrLength(attrs[1..], name);
    }
  }

  /** Removing `x`'s name from `a + [x] + b` drops `x` itself when no attribute of `a` has that name. */
  lemma {:induction false} RemoveAttrPast(a: seq<Attr>, x: Attr, b: seq<Attr>)
    requires forall y :: y in a ==> y.name != x.name
    ensures RemoveAttr(a + [x] + b, x.name) == a + b
  {
    if a == [] {
      assert a + [x] + b == [x] + b;
    } else {
      assert (a + [x] + b)[1..] == a[1..] + [x] + b;
      RemoveAttrPast(a[1..], x, b);
      assert a + b == [a[0]] + (a[1..] + b);
    }
  }

  lemma UniqueTail(attrs: seq<Attr>)
    requires attrs != [] && UniqueNames(attrs)
    ensures UniqueNames(attrs[1..])
    ensures forall a :: a in attrs[1..] ==> a.name != attrs[0].name
  {
    forall a | a in attrs[1..] ensures a.name != attrs[0].name {
      var i :| 0 <= i < |attrs[1..]| && attrs[1..][i] == a;
      assert attrs[i + 1] == a;
    }
  }

  /** Where no attribute carries `name`, leaving it out of the filter changes nothing. */
  lemma {:induction false} WithoutAbsentName(attrs: seq<Attr>, names: seq<string>, name: string)
    requires forall a :: a in attrs ==> a.name != name
    ensures WithoutNames(attrs, names + [name]) == WithoutNames(attrs, names)
  {
    if attrs != [] {
      WithoutAbsentName(attrs[1..], names, name);
    }
  }

  /** With unique names, removing one more name is filtering it out as well. */
  lemma {:induction false} RemoveFromFiltered(attrs: seq<Attr>, names: seq<string>, name: string)
    requires UniqueNames(attrs)
    ensures RemoveAttr(WithoutNames(attrs, names), name) == WithoutNames(attrs, names + [name])
  {
    if attrs != [] {
      UniqueTail(attrs);
      var w := WithoutNames(attrs[1..], names);
      if attrs[0].name in names {
        RemoveFromFiltered(attrs[1..], names, name);
        assert attrs[0].name in names + [name];
        assert WithoutNames(attrs, names) == w;
        assert WithoutNames(attrs, names + [name]) == WithoutNames(attrs[1..], names + [name]);
      } else if attrs[0].name == name {
        WithoutAbsentName(attrs[1..], names, name);
        assert attrs[0].name in names + [name];
        assert WithoutNames(attrs, names) == [attrs[0]] + w;
        assert WithoutNames(attrs, names + [name]) == WithoutNames(attrs[1..], names + [name]);
      } else {
        RemoveFromFiltered(attrs[1..], names, name);
        assert attrs[0].name !in names + [name];
        assert WithoutNames(attrs, names) == [attrs[0]] + w;
        assert WithoutNames(attrs, names + [name]) == [attrs[0]] + WithoutNames(attrs[1..], names + [name]);
      }
    }
  }

  /** The guarded removal of `names[..k]` filters those names out. */
  lemma {:induction false} DropNamedIsFilter(attrs: seq<Attr>, names: seq<string>, k: nat)
    requires UniqueNames(attrs) && k <= |names|
    ensures DropNamed(attrs, names, k) == WithoutNames(attrs, names[..k])
  {
    if k == 0 {
      NoNames(attrs);
    } else {
      DropNamedIsFilter(attrs, names, k - 1);
      DropNamedStep(attrs, names, k);
    }
  }

  lemma {:induction false} NoNames(attrs: seq<Attr>)
    ensures WithoutNames(attrs, []) == attrs
  {
    if attrs != [] {
      NoNames(attrs[1..]);
    }
  }

  lemma DropNamedStep(attrs: seq<Attr>, names: seq<string>, k: nat)
    requires UniqueNames(attrs) && 0 < k <= |names|
    requires DropNamed(attrs, names, k - 1) == WithoutNames(attrs, names[..k - 1])
    ensures DropNamed(attrs, names, k) == WithoutNames(attrs, names[..k])
  {
    var live := DropNamed(attrs, names, k - 1);
    assert names[..k] == names[..k - 1] + [names[k - 1]];
    RemoveFromFiltered(attrs, names[..k - 1], names[k - 1]);
    RemoveAttrLength(live, names[k - 1]);
  }

  // ---------------------------------------------------------------- the data-* walk

  lemma {:induction false} KeepIfSnoc(s: seq<Attr>, x: Attr, p: Attr -> bool)
    ensures KeepIf(s + [x], p) == KeepIf(s, p) + (if p(x) then [x] else [])
  {
    if s == [] {
      assert [] + [x] == [x];
    } else {
      assert (s + [x])[1..] == s[1..] + [x];
      KeepIfSnoc(s[1..], x, p);
    }
  }

  /** With unique names, the walk over `attrs[..n]` has filtered the `data-*` attributes out of that prefix. */
  lemma {:induction false} DropDataIsFilter(attrs: seq<Attr>, n: nat)
    requires UniqueNames(attrs) && n <= |attrs|
    ensures DropData(attrs, n) == KeepIf(attrs[..n], NotData) + attrs[n..]
  {
    if n == 0 {
      assert attrs[..0] == [];
    } else {
      DropDataIsFilter(attrs, n - 1);
      DropDataStep(attrs, n);
    }
  }

  lemma DropDataStep(attrs: seq<Attr>, n: nat)
    requires UniqueNames(attrs) && 0 < n <= |attrs|
    requires DropData(attrs, n - 1) == KeepIf(attrs[..n - 1], NotData) + attrs[n - 1..]
    ensures DropData(attrs, n) == KeepIf(attrs[..n], NotData) + attrs[n..]
  {
    var x := attrs[n - 1];
    var k := KeepIf(attrs[..n - 1], NotData);
    PrefixSplit(attrs, n);
    KeepIfSnoc(attrs[..n - 1], x, NotData);
    assert DropData(attrs, n - 1) == k + [x] + attrs[n..];
    if IsData(x) {
      NamesBefore(attrs, n);
      RemoveAttrPast(k, x, attrs[n..]);
      assert KeepIf(attrs[..n], NotData) == k;
    } else {
      assert KeepIf(attrs[..n], NotData) == k + [x];
    }
  }

  lemma PrefixSplit(attrs: seq<Attr>, n: nat)
    requires 0 < n <= |attrs|
    ensures attrs[..n] == attrs[..n - 1] + [attrs[n - 1]]
    ensures attrs[n - 1..] == [attrs[n - 1]] + attrs[n..]
  {
  }

  /** With unique names, nothing kept from `attrs[..n - 1]` shares the name of `attrs[n - 1]`. */
  lemma NamesBefore(attrs: seq<Attr>, n: nat)
    requires UniqueNames(attrs) && 0 < n <= |attrs|
    ensures forall y :: y in KeepIf(attrs[..n - 1], NotData) ==> y.name != attrs[n - 1].name
  {
    forall y | y in KeepIf(attrs[..n - 1], NotData) ensures y.name != attrs[n - 1].name {
      var i :| 0 <= i < n - 1 && attrs[i] == y;
    }
  }

  lemma {:induction false} UniqueFiltered(attrs: seq<Attr>, p: Attr -> bool)
    requires UniqueNames(attrs)
    ensures UniqueNames(KeepIf(attrs, p))
  {
    if attrs != [] {
      UniqueTail(attrs);
      UniqueFiltered(attrs[1..], p);
      var r := KeepIf(attrs[1..], p);
      if p(attrs[0]) {
        forall i, j | 0 <= i < j < |[attrs[0]] + r|
          ensures ([attrs[0]] + r)[i].name != ([attrs[0]] + r)[j].name
        {
          if i == 0 {
            assert ([attrs[0]] + r)[j] == r[j - 1];
            assert r[j - 1] in attrs[1..];
          } else {
            assert ([attrs[0]] + r)[i] == r[i - 1] && ([attrs[0]] + r)[j] == r[j - 1];
          }
        }
      }
    }
  }

  /** Filtering `data-*` out and then `names` is filtering by `keep`, when `keep` is that conjunction. */
  lemma {:induction false} FilterThenWithout(attrs: seq<Attr>, names: seq<string>, keep: Attr -> bool)
    requires forall a :: keep(a) == (NotData(a) && a.name !in names)
    ensures WithoutNames(KeepIf(attrs, NotData), names) == KeepIf(attrs, keep)
  {
    if attrs != [] {
      FilterThenWithout(attrs[1..], names, keep);
      var rest := KeepIf(attrs[1..], NotData);
      if NotData(attrs[0]) {
        assert KeepIf(attrs, NotData) == [attrs[0]] + rest;
        assert WithoutNames([attrs[0]] + rest, names) ==
          (if attrs[0].name in names then [] else [attrs[0]]) + WithoutNames(rest, names);
      } else {
        assert KeepIf(attrs, NotData) == rest;
      }
    }
  }

  /**
    With unique attribute names, `optimizeSvg` leaves an element exactly the attributes that are
    neither `data-*` nor a Figma attribute, in their original order.
  */
  lemma StrippedAttrsKept(tag: string, attrs: seq<Attr>)
    requires UniqueNames(attrs)
    ensures StrippedAttrs(tag, attrs) == KeepIf(attrs, Kept)
    ensures forall a :: a in StrippedAttrs(tag, attrs) <==>
      a in attrs && !StartsWith(a.name, "data-") && a.name != "figma:type" && a.name != "figma:id"
  {
    DropDataIsFilter(attrs, |attrs|);
    assert attrs[..|attrs|] == attrs && attrs[|attrs|..] == [];
    var k := KeepIf(attrs, NotData);
    assert DropData(attrs, |attrs|) == k;
    UniqueFiltered(attrs, NotData);
    DropNamedIsFilter(k, FigmaAttributes, |FigmaAttributes|);
    assert FigmaAttributes[..|FigmaAttributes|] == FigmaAttributes;
    FilterThenWithout(attrs, FigmaAttributes, Kept);
  }
}
