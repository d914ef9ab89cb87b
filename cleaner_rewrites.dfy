/**
  What the four rewriting passes of the cleaner do to the tree: the precision, path-data and colour
  passes rewrite attribute lists element by element (`MapAttrsDoc`), and the whitespace pass trims
  the text nodes under the document element and detaches the ones it empties.
*/
module CleanerRewrites {
  import opened Wrappers
  import opened Text
  import opened Dom
  import opened DomFacts
  import opened CleanerSyntax

  /** The node-level form of an attribute-list test, for counting over a snapshot. */
  function OnElements(touched: (string, seq<Attr>) -> bool): Node -> bool
  {
    (n: Node) => n.Element? && touched(n.tag, n.attrs)
  }

  // ---------------------------------------------------------------- precision

  /** `parseFloat(v).toFixed(2)` when `v` matches the long-decimal pattern; nothing otherwise. */
  function Rounding(v: string): Option<string>
  {
    if IsLongDecimal(v) then Some(ToFixedTwo(v)) else None
  }

  /**
    The attributes of an element after a pass has handled the first `n` entries of the snapshot
    `orig` of its attribute list, setting each value `rw` rewrites to the rewritten text.
  */
  function RewriteUpTo(orig: seq<Attr>, n: nat, rw: string -> Option<string>): seq<Attr>
    requires n <= |orig|
  {
    if n == 0 then orig
    else
      var a := RewriteUpTo(orig, n - 1, rw);
      var x := orig[n - 1];
      match rw(x.value)
      case Some(w) => SetAttr(a, x.name, w)
      case None => a
  }

  /** The number of rewritten values among the first `n` snapshot attributes. */
  function RewriteCount(orig: seq<Attr>, n: nat, rw: string -> Option<string>): nat
    requires n <= |orig|
  {
    if n == 0 then 0
    else RewriteCount(orig, n - 1, rw) + (if rw(orig[n - 1].value).Some? then 1 else 0)
  }

  function RoundedAttrs(tag: string, attrs: seq<Attr>): seq<Attr>
  {
    RewriteUpTo(attrs, |attrs|, Rounding)
  }

  predicate HasLongDecimal(tag: string, attrs: seq<Attr>)
  {
    exists i :: 0 <= i < |attrs| && IsLongDecimal(attrs[i].value)
  }

  function AfterPrecision(d: Document): Document
  {
    MapAttrsDoc(d, RoundedAttrs)
  }

  /** The `optimized` counter after visiting `els[..n]`: one per rounded attribute. */
  function PrecisionCount(els: seq<Node>, n: nat): nat
    requires n <= |els|
  {
    if n == 0 then 0
    else PrecisionCount(els, n - 1) + RewriteCount(AttrsOf(els[n - 1]), |AttrsOf(els[n - 1])|, Rounding)
  }

  function PrecisionOptimized(d: Document): nat
  {
    var els := QuerySelectorAll(d, Universal);
    PrecisionCount(els, |els|)
  }

  lemma {:induction false} RewriteUpToNoMatches(orig: seq<Attr>, n: nat, rw: string -> Option<string>)
    requires n <= |orig|
    requires forall i :: 0 <= i < n ==> rw(orig[i].value).None?
    ensures RewriteUpTo(orig, n, rw) == orig && RewriteCount(orig, n, rw) == 0
  {
    if n > 0 {
      RewriteUpToNoMatches(orig, n - 1, rw);
    }
  }

  /** One step of the precision pass: a long decimal is set rounded and counted, anything else is left. */
  lemma RoundingStep(attrs: seq<Attr>, j: nat)
    requires j < |attrs|
    ensures RewriteUpTo(attrs, j + 1, Rounding) ==
      if IsLongDecimal(attrs[j].value) then SetAttr(RewriteUpTo(attrs, j, Rounding), attrs[j].name, ToFixedTwo(attrs[j].value))
      else RewriteUpTo(attrs, j, Rounding)
    ensures RewriteCount(attrs, j + 1, Rounding) == RewriteCount(attrs, j, Rounding) + if IsLongDecimal(attrs[j].value) then 1 else 0
  {
  }

  /** An element without long decimals keeps its attributes, and adds nothing to the counter. */
  lemma RoundedAttrsUntouched(tag: string, attrs: seq<Attr>)
    requires !HasLongDecimal(tag, attrs)
    ensures RoundedAttrs(tag, attrs) == attrs && RewriteCount(attrs, |attrs|, Rounding) == 0
  {
    RewriteUpToNoMatches(attrs, |attrs|, Rounding);
  }

  /** On distinct names, `setAttribute` of an existing name rewrites that attribute in place. */
  lemma {:induction false} SetAttrAt(a: seq<Attr>, p: nat, v: string)
    requires UniqueNames(a) && p < |a|
    ensures SetAttr(a, a[p].name, v) == a[p := Attr(a[p].name, v)]
  {
    if p > 0 {
      assert a[0].name != a[p].name;
      assert a[1..][p - 1] == a[p];
      SetAttrAt(a[1..], p - 1, v);
      assert a[1..][p - 1 := Attr(a[p].name, v)] == a[p := Attr(a[p].name, v)][1..];
    }
  }

  lemma SameNamesUnique(a: seq<Attr>, b: seq<Attr>)
    requires UniqueNames(b) && |a| == |b|
    requires forall i :: 0 <= i < |a| ==> a[i].name == b[i].name
    ensures UniqueNames(a)
  {
    forall i, j | 0 <= i < j < |a| ensures a[i].name != a[j].name {
      assert a[i].name == b[i].name && a[j].name == b[j].name;
    }
  }

  /** The name and value an attribute has after the pass, on distinct names. */
  predicate RewrittenAt(r: seq<Attr>, orig: seq<Attr>, n: nat, rw: string -> Option<string>)
    requires |r| == |orig|
  {
    forall i :: 0 <= i < |orig| ==>
      r[i].name == orig[i].name &&
      r[i].value == (if i < n then rw(orig[i].value).GetOr(orig[i].value) else orig[i].value)
  }

  lemma {:induction false} RewriteUpToPositional(orig: seq<Attr>, n: nat, rw: string -> Option<string>)
    requires n <= |orig| && UniqueNames(orig)
    ensures |RewriteUpTo(orig, n, rw)| == |orig|
    ensures RewrittenAt(RewriteUpTo(orig, n, rw), orig, n, rw)
  {
    if n > 0 {
      RewriteUpToPositional(orig, n - 1, rw);
      var a := RewriteUpTo(orig, n - 1, rw);
      match rw(orig[n - 1].value)
      case None =>
        RewriteSkip(a, orig, n, rw);
      case Some(w) =>
        RewriteStep(a, orig, n, rw, w);
    }
  }

  lemma RewriteSkip(a: seq<Attr>, orig: seq<Attr>, n: nat, rw: string -> Option<string>)
    requires 0 < n <= |orig| && |a| == |orig| && RewrittenAt(a, orig, n - 1, rw)
    requires rw(orig[n - 1].value).None?
    ensures RewrittenAt(a, orig, n, rw)
  {
  }

  lemma RewriteStep(a: seq<Attr>, orig: seq<Attr>, n: nat, rw: string -> Option<string>, w: string)
    requires 0 < n <= |orig| && |a| == |orig| && UniqueNames(orig) && RewrittenAt(a, orig, n - 1, rw)
    requires rw(orig[n - 1].value) == Some(w)
    ensures |SetAttr(a, orig[n - 1].name, w)| == |orig|
    ensures RewrittenAt(SetAttr(a, orig[n - 1].name, w), orig, n, rw)
  {
    SameNamesUnique(a, orig);
    var x := orig[n - 1];
    assert a[n - 1] == x;
    SetAttrAt(a, n - 1, w);
    var r := a[n - 1 := Attr(x.name, w)];
    assert SetAttr(a, x.name, w) == r;
    forall i | 0 <= i < |orig|
      ensures r[i].name == orig[i].name
      ensures r[i].value == (if i < n then rw(orig[i].value).GetOr(orig[i].value) else orig[i].value)
    {
      if i != n - 1 {
        assert r[i] == a[i];
      }
    }
  }

  /**
    On an element (whose attribute names are distinct) the pass rewrites exactly the values that
    are long decimals, each to its two-digit rounding, and keeps every name and position.
  */
  lemma RoundedAttrsPositional(tag: string, attrs: seq<Attr>)
    requires UniqueNames(attrs)
    ensures var r := RoundedAttrs(tag, attrs);
      |r| == |attrs| &&
      forall i :: 0 <= i < |attrs| ==>
        r[i].name == attrs[i].name &&
        (IsLongDecimal(attrs[i].value) ==> r[i].value == ToFixedTwo(attrs[i].value)) &&
        (!IsLongDecimal(attrs[i].value) ==> r[i].value == attrs[i].value)
  {
    RewriteUpToPositional(attrs, |attrs|, Rounding);
    var r := RoundedAttrs(tag, attrs);
    assert forall i :: 0 <= i < |attrs| ==> r[i].value == Rounding(attrs[i].value).GetOr(attrs[i].value);
  }

  /** The positions among the first `n` whose value `rw` rewrites. */
  function RewrittenPositions(orig: seq<Attr>, n: nat, rw: string -> Option<string>): set<nat>
  {
    set i: nat | i < n && i < |orig| && rw(orig[i].value).Some?
  }

  /** The counter for one element is the number of its attributes holding a long decimal. */
  lemma {:induction false} RewriteCountIff(orig: seq<Attr>, n: nat, rw: string -> Option<string>)
    requires n <= |orig|
    ensures RewriteCount(orig, n, rw) == |RewrittenPositions(orig, n, rw)|
  {
    if n == 0 {
      NoPositions(orig, rw);
    } else {
      RewriteCountIff(orig, n - 1, rw);
      CountStep(orig, n, rw);
    }
  }

  lemma NoPositions(orig: seq<Attr>, rw: string -> Option<string>)
    ensures |RewrittenPositions(orig, 0, rw)| == 0
  {
    assert RewrittenPositions(orig, 0, rw) == {};
  }

  lemma CountStep(orig: seq<Attr>, n: nat, rw: string -> Option<string>)
    requires 0 < n <= |orig|
    requires RewriteCount(orig, n - 1, rw) == |RewrittenPositions(orig, n - 1, rw)|
    ensures RewriteCount(orig, n, rw) == |RewrittenPositions(orig, n, rw)|
  {
    var prev := RewrittenPositions(orig, n - 1, rw);
    PositionsStep(orig, n, rw);
    if rw(orig[n - 1].value).Some? {
      CardinalityAdd(prev, n - 1);
    }
  }

  lemma PositionsStep(orig: seq<Attr>, n: nat, rw: string -> Option<string>)
    requires 0 < n <= |orig|
    ensures RewrittenPositions(orig, n, rw) ==
      RewrittenPositions(orig, n - 1, rw) + (if rw(orig[n - 1].value).Some? then {n - 1} else {})
  {
  }

  lemma {:induction false} RewriteCountPositive(orig: seq<Attr>, n: nat, rw: string -> Option<string>)
    requires n <= |orig|
    ensures RewriteCount(orig, n, rw) > 0 <==> exists i :: 0 <= i < n && rw(orig[i].value).Some?
  {
    if n > 0 {
      RewriteCountPositive(orig, n - 1, rw);
    }
  }

  /** An element is touched by the precision pass exactly when it has a long decimal value. */
  lemma PrecisionTouches(tag: string, attrs: seq<Attr>)
    ensures RewriteCount(attrs, |attrs|, Rounding) > 0 <==> HasLongDecimal(tag, attrs)
  {
    RewriteCountPositive(attrs, |attrs|, Rounding);
    assert forall i :: 0 <= i < |attrs| ==> (Rounding(attrs[i].value).Some? <==> IsLongDecimal(attrs[i].value));
  }

  /** A second precision pass changes nothing: rounded values have two fractional digits. */
  lemma RoundedAttrsIdempotent(tag: string, attrs: seq<Attr>)
    requires UniqueNames(attrs)
    ensures RoundedAttrs(tag, RoundedAttrs(tag, attrs)) == RoundedAttrs(tag, attrs)
  {
    var r := RoundedAttrs(tag, attrs);
    RoundedAttrsPositional(tag, attrs);
    forall i | 0 <= i < |r| ensures Rounding(r[i].value).None? {
      if IsLongDecimal(attrs[i].value) {
        FixedTwoIsShort(Hundredths(attrs[i].value));
      }
    }
    RewriteUpToNoMatches(r, |r|, Rounding);
  }

  /**
    Integers, values with at most two decimals, and negative numbers are left alone: they do not
    match the long-decimal pattern.
  */
  lemma ShortValuesUntouched(v: string, p: nat)
    requires p < |v| && v[p] == '.' && |v| - p - 1 <= 2
    ensures !IsLongDecimal(v)
  {
    var q := IndexOf(v, '.');
    assert forall j :: 0 <= j < q ==> v[..q][j] == v[j];
    assert forall j :: q < j < |v| ==> v[q + 1..][j - q - 1] == v[j];
  }

  lemma NegativeUntouched(v: string)
    requires v != [] && v[0] == '-'
    ensures !IsLongDecimal(v)
  {
    if '.' in v {
      var p := IndexOf(v, '.');
      if p >= 1 {
        assert v[..p][0] == '-';
      }
    }
  }

  lemma IntegerUntouched(v: string)
    requires '.' !in v
    ensures !IsLongDecimal(v)
  {
  }

  /** A long decimal: `10.1234` becomes `10.12`. */
  lemma PrecisionScenarioTen()
    ensures IsLongDecimal("10.1234") && ToFixedTwo("10.1234") == "10.12"
  {
    TenParts();
    assert Thousandths("10.1234") == 10123;
    assert Hundredths("10.1234") == 1012;
    assert NatToString(10) == "10" by {
      assert NatToString(1) == "1";
    }
  }

  lemma TenParts()
    ensures IndexOf("10.1234", '.') == 2
    ensures "10.1234"[..2] == "10" && "10.1234"[3..] == "1234"
    ensures AllDigits("10") && AllDigits("1234") && DecimalValue("10") == 10
  {
    IndexOfUnique("10.1234", '.', 2);
    assert "10"[..1] == "1";
  }

  /** Trailing zeros stay: `1.00001` becomes `1.00`. */
  lemma PrecisionScenarioOne()
    ensures IsLongDecimal("1.00001") && ToFixedTwo("1.00001") == "1.00"
  {
    OneParts();
    assert Thousandths("1.00001") == 1000;
    assert Hundredths("1.00001") == 100;
    assert NatToString(1) == "1";
  }

  lemma OneParts()
    ensures IndexOf("1.00001", '.') == 1
    ensures "1.00001"[..1] == "1" && "1.00001"[2..] == "00001"
    ensures AllDigits("1") && AllDigits("00001") && DecimalValue("1") == 1
  {
    IndexOfUnique("1.00001", '.', 1);
  }

  /** The precision pass's element-by-element rewrites over its snapshot make up `AfterPrecision`. */
  lemma PrecisionPatch(d: Document)
    requires Valid(d)
    ensures var els := QuerySelectorAll(d, Universal);
      EditAttrsDoc(d, PatchOf(els, |els|, RoundedAttrs, HasLongDecimal)) == AfterPrecision(d)
    ensures Valid(AfterPrecision(d))
  {
    forall t, a | !HasLongDecimal(t, a) ensures RoundedAttrs(t, a) == a {
      RoundedAttrsUntouched(t, a);
    }
    SnapshotPatchIsMap(d, Universal, RoundedAttrs, HasLongDecimal);
    MapAttrsDocValid(d, RoundedAttrs);
  }

  // ---------------------------------------------------------------- path data

  /** A `path` with a non-empty `d` whose simplified text differs from it. */
  predicate PathChanges(tag: string, attrs: seq<Attr>)
  {
    tag == "path" &&
    match GetAttr(attrs, "d")
    case None => false
    case Some(d) => d != [] && SimplifyPathData(d) != d
  }

  function SimplifiedPathAttrs(tag: string, attrs: seq<Attr>): seq<Attr>
  {
    if PathChanges(tag, attrs) then SetAttr(attrs, "d", SimplifyPathData(GetAttr(attrs, "d").value))
    else attrs
  }

  function AfterPaths(d: Document): Document
  {
    MapAttrsDoc(d, SimplifiedPathAttrs)
  }

  function PathsSimplified(d: Document): nat
  {
    var ps := QuerySelectorAll(d, Type("path"));
    CountWhere(ps, |ps|, OnElements(PathChanges))
  }

  /**
    A changed path's new `d` is trimmed, has no whitespace run longer than one and differs from the
    old one; every other element keeps its attributes.
  */
  lemma SimplifiedPathAttrsFacts(tag: string, attrs: seq<Attr>)
    ensures var r := SimplifiedPathAttrs(tag, attrs);
      (PathChanges(tag, attrs) ==>
        GetAttr(attrs, "d").Some? &&
        var nd := SimplifyPathData(GetAttr(attrs, "d").value);
        GetAttr(r, "d") == Some(nd) && IsTrimmed(nd) && NoSpaceRun(nd) && Some(nd) != GetAttr(attrs, "d") &&
        forall other :: other != "d" ==> GetAttr(r, other) == GetAttr(attrs, other)) &&
      (!PathChanges(tag, attrs) ==> r == attrs)
  {
    if PathChanges(tag, attrs) {
      SetAttrFacts(attrs, "d", SimplifyPathData(GetAttr(attrs, "d").value));
    }
  }

  /** A path is counted exactly when its `d` is rewritten. */
  lemma PathCountedIff(d: Document, k: nat)
    requires Valid(d) && k < |QuerySelectorAll(d, Type("path"))|
    ensures var ps := QuerySelectorAll(d, Type("path"));
      ps[k].id in IdsWhere(ps, |ps|, OnElements(PathChanges)) <==>
        ps[k].Element? && SimplifiedPathAttrs(ps[k].tag, ps[k].attrs) != ps[k].attrs
    ensures var ps := QuerySelectorAll(d, Type("path"));
      PathsSimplified(d) == |IdsWhere(ps, |ps|, OnElements(PathChanges))|
  {
    var ps := QuerySelectorAll(d, Type("path"));
    SelectDistinct(d.nodes, Type("path"), false);
    SelectFromTree(d.nodes, Type("path"), false);
    assert ps[k] in ps;
    IdsWhereIff(ps, |ps|, OnElements(PathChanges), k);
    CountWhereIsSize(ps, |ps|, OnElements(PathChanges));
    if PathChanges(ps[k].tag, ps[k].attrs) {
      SimplifiedPathAttrsFacts(ps[k].tag, ps[k].attrs);
    }
  }

  /** The path pass's rewrites over its snapshot of `path` elements make up `AfterPaths`. */
  lemma PathsPatch(d: Document)
    requires Valid(d)
    ensures var ps := QuerySelectorAll(d, Type("path"));
      EditAttrsDoc(d, PatchOf(ps, |ps|, SimplifiedPathAttrs, PathChanges)) == AfterPaths(d)
    ensures Valid(AfterPaths(d))
  {
    SnapshotPatchIsMap(d, Type("path"), SimplifiedPathAttrs, PathChanges);
    MapAttrsDocValid(d, SimplifiedPathAttrs);
  }

  // ---------------------------------------------------------------- colours

  /** Attribute `name` has a value the colour pass rewrites. */
  predicate Recolors(attrs: seq<Attr>, name: string)
  {
    GetAttr(attrs, name).Some? && Recolored(GetAttr(attrs, name).value).Some?
  }

  function RecolorOne(attrs: seq<Attr>, name: string): seq<Attr>
  {
    if Recolors(attrs, name) then SetAttr(attrs, name, Recolored(GetAttr(attrs, name).value).value)
    else attrs
  }

  /** The attributes the colour pass looks at, in the order it looks at them. */
  const ColorAttributes: seq<string> := ["fill", "stroke"]

  /** The element's attributes after recolouring `names[..j]`, one after the other. */
  function RecolorUpTo(attrs: seq<Attr>, names: seq<string>, j: nat): seq<Attr>
    requires j <= |names|
  {
    if j == 0 then attrs else RecolorOne(RecolorUpTo(attrs, names, j - 1), names[j - 1])
  }

  /** The `optimized` increments made while recolouring `names[..j]`. */
  function RecolorHits(attrs: seq<Attr>, names: seq<string>, j: nat): nat
    requires j <= |names|
  {
    if j == 0 then 0
    else RecolorHits(attrs, names, j - 1) + (if Recolors(RecolorUpTo(attrs, names, j - 1), names[j - 1]) then 1 else 0)
  }

  /** `fill`, then `stroke`. */
  function RecoloredAttrs(tag: string, attrs: seq<Attr>): seq<Attr>
  {
    RecolorUpTo(attrs, ColorAttributes, |ColorAttributes|)
  }

  predicate HasRgbColor(tag: string, attrs: seq<Attr>)
  {
    Recolors(attrs, "fill") || Recolors(attrs, "stroke")
  }

  /** The `optimized` increments for one element. */
  function RecolorCount(attrs: seq<Attr>): nat
  {
    RecolorHits(attrs, ColorAttributes, |ColorAttributes|)
  }

  lemma RecolorUnrolled(attrs: seq<Attr>)
    ensures RecolorUpTo(attrs, ColorAttributes, |ColorAttributes|) == RecolorOne(RecolorOne(attrs, "fill"), "stroke")
    ensures RecolorCount(attrs) ==
      (if Recolors(attrs, "fill") then 1 else 0) + (if Recolors(RecolorOne(attrs, "fill"), "stroke") then 1 else 0)
  {
    assert RecolorUpTo(attrs, ColorAttributes, 1) == RecolorOne(attrs, "fill");
    assert RecolorHits(attrs, ColorAttributes, 1) == if Recolors(attrs, "fill") then 1 else 0;
    assert ColorAttributes[1] == "stroke";
  }

  function ColorCount(els: seq<Node>, n: nat): nat
    requires n <= |els|
  {
    if n == 0 then 0 else ColorCount(els, n - 1) + RecolorCount(AttrsOf(els[n - 1]))
  }

  function AfterColors(d: Document): Document
  {
    MapAttrsDoc(d, RecoloredAttrs)
  }

  function ColorsOptimized(d: Document): nat
  {
    var els := QuerySelectorAll(d, Universal);
    ColorCount(els, |els|)
  }

  /** The recolouring of one attribute: its new value, and every other attribute unchanged. */
  lemma RecolorOneFacts(attrs: seq<Attr>, name: string)
    ensures var r := RecolorOne(attrs, name);
      GetAttr(r, name) == (if Recolors(attrs, name) then Recolored(GetAttr(attrs, name).value) else GetAttr(attrs, name)) &&
      forall other :: other != name ==> GetAttr(r, other) == GetAttr(attrs, other)
  {
  }

  /**
    After the colour pass `fill` and `stroke` each hold the `#rrggbb` form of the leftmost
    `rgb()` in their old value when they had one, and are unchanged otherwise; one increment is
    counted per rewritten attribute.
  */
  lemma RecoloredAttrsFacts(tag: string, attrs: seq<Attr>)
    ensures var r := RecoloredAttrs(tag, attrs);
      (forall name :: name == "fill" || name == "stroke" ==>
        GetAttr(r, name) == (if Recolors(attrs, name) then Recolored(GetAttr(attrs, name).value) else GetAttr(attrs, name))) &&
      (forall other :: other != "fill" && other != "stroke" ==> GetAttr(r, other) == GetAttr(attrs, other)) &&
      RecolorCount(attrs) == (if Recolors(attrs, "fill") then 1 else 0) + (if Recolors(attrs, "stroke") then 1 else 0)
  {
    RecolorUnrolled(attrs);
    RecolorOneFacts(attrs, "fill");
    RecolorOneFacts(RecolorOne(attrs, "fill"), "stroke");
    assert GetAttr(RecolorOne(attrs, "fill"), "stroke") == GetAttr(attrs, "stroke");
  }

  lemma RecoloredAttrsUntouched(tag: string, attrs: seq<Attr>)
    requires !HasRgbColor(tag, attrs)
    ensures RecoloredAttrs(tag, attrs) == attrs && RecolorCount(attrs) == 0
  {
    RecolorUnrolled(attrs);
    assert GetAttr(RecolorOne(attrs, "fill"), "stroke") == GetAttr(attrs, "stroke");
  }

  /** A second colour pass changes nothing. */
  lemma RecoloredAttrsIdempotent(tag: string, attrs: seq<Attr>)
    ensures RecoloredAttrs(tag, RecoloredAttrs(tag, attrs)) == RecoloredAttrs(tag, attrs)
  {
    var r := RecoloredAttrs(tag, attrs);
    RecoloredAttrsFacts(tag, attrs);
    forall name | name == "fill" || name == "stroke" ensures !Recolors(r, name) {
      if Recolors(attrs, name) {
        RecoloredStable(GetAttr(attrs, name).value);
      }
    }
    RecoloredAttrsUntouched(tag, r);
  }

  /** Pure red: `rgb(255, 0, 0)` becomes `#ff0000`. */
  lemma RedScenario()
    ensures Recolored("rgb(255, 0, 0)") == Some("#ff0000")
  {
    RedMatch();
    RedHex();
  }

  lemma RedMatch()
    ensures FindRgb("rgb(255, 0, 0)") == Some(Channels("255", "0", "0"))
  {
    var s := "rgb(255, 0, 0)";
    assert StartsWith(s, "rgb(");
    assert s[4..] == "255, 0, 0)";
    RedChannels();
    assert MatchRgb(s) == Some(Channels("255", "0", "0"));
  }

  lemma RedChannels()
    ensures ChannelThen("255, 0, 0)", ',') == Some(("255", " 0, 0)"))
    ensures SpaceSpan(" 0, 0)") == 1 && " 0, 0)"[1..] == "0, 0)"
    ensures ChannelThen("0, 0)", ',') == Some(("0", " 0)"))
    ensures SpaceSpan(" 0)") == 1 && " 0)"[1..] == "0)"
    ensures ChannelThen("0)", ')') == Some(("0", ""))
  {
    RedSpans();
    assert "255, 0, 0)"[..3] == "255" && "255, 0, 0)"[4..] == " 0, 0)";
    assert "0, 0)"[..1] == "0" && "0, 0)"[2..] == " 0)";
    assert "0)"[..1] == "0" && "0)"[2..] == "";
  }

  lemma RedSpans()
    ensures DigitSpan("255, 0, 0)") == 3 && DigitSpan("0, 0)") == 1 && DigitSpan("0)") == 1
    ensures SpaceSpan(" 0, 0)") == 1 && SpaceSpan(" 0)") == 1
  {
    DigitSpanOf("255", ", 0, 0)");
    assert "255" + ", 0, 0)" == "255, 0, 0)";
    DigitSpanOf("0", ", 0)");
    assert "0" + ", 0)" == "0, 0)";
    DigitSpanOf("0", ")");
    assert "0" + ")" == "0)";
    SpaceSpanOf(" ", "0, 0)");
    assert " " + "0, 0)" == " 0, 0)";
    SpaceSpanOf(" ", "0)");
    assert " " + "0)" == " 0)";
  }

  lemma RedHex()
    ensures HexColor(Channels("255", "0", "0")) == "#ff0000"
  {
    var c := Channels("255", "0", "0");
    HexColorIs(c);
    FullChannel();
    ZeroChannel();
    RedText();
  }

  lemma RedText()
    ensures "#" + "ff" + "00" + "00" == "#ff0000"
  {
  }

  lemma FullChannel()
    ensures HexChannel("255") == "ff"
  {
    assert DecimalValue("255") == 255 by {
      assert "255"[..2] == "25" && "25"[..1] == "2";
    }
    assert NatToHex(255) == "ff" by {
      assert NatToHex(15) == "f";
    }
  }

  lemma ZeroChannel()
    ensures HexChannel("0") == "00"
  {
    assert DecimalValue("0") == 0;
    assert NatToHex(0) == "0";
    assert seq(1, _ => '0') + "0" == "00";
  }

  /** The colour pass's rewrites over its snapshot make up `AfterColors`. */
  lemma ColorsPatch(d: Document)
    requires Valid(d)
    ensures var els := QuerySelectorAll(d, Universal);
      EditAttrsDoc(d, PatchOf(els, |els|, RecoloredAttrs, HasRgbColor)) == AfterColors(d)
    ensures Valid(AfterColors(d))
  {
    forall t, a | !HasRgbColor(t, a) ensures RecoloredAttrs(t, a) == a {
      RecoloredAttrsUntouched(t, a);
    }
    SnapshotPatchIsMap(d, Universal, RecoloredAttrs, HasRgbColor);
    MapAttrsDocValid(d, RecoloredAttrs);
  }

  // ---------------------------------------------------------------- whitespace

  /** The text nodes a text-showing tree walker rooted at the document element visits, in order. */
  function WalkerTexts(root: Node): seq<Node>
  {
    match root
    case TextNode(_, _) => []
    case Element(_, _, _, cs) => TextNodesSeq(cs)
  }

  /** A text node with data (`if (textNode.nodeValue)`) that trims to nothing. */
  predicate IsBlankText(t: Node)
  {
    t.TextNode? && t.value != [] && Trim(t.value) == []
  }

  /** `if (textNode.nodeValue)`: the text node has data. */
  predicate HasData(t: Node)
  {
    t.TextNode? && t.value != []
  }

  function TrimmedData(t: Node): string
  {
    if t.TextNode? then Trim(t.value) else []
  }

  /** The data written while visiting `ts[..n]`: every text node with data takes its trimmed data. */
  function TrimEdits(ts: seq<Node>, n: nat): map<nat, string>
    requires n <= |ts|
  {
    TextPatchOf(ts, n, HasData, TrimmedData)
  }

  /** The normalized document, or `None` when there is no document element to walk. */
  function AfterWhitespace(d: Document): Option<Document>
  {
    match DocumentElement(d)
    case None => None
    case Some(root) =>
      var ts := WalkerTexts(root);
      Some(PruneDoc(EditTextsDoc(d, TrimEdits(ts, |ts|)), IdsWhere(ts, |ts|, IsBlankText)))
  }

  lemma {:induction false} ChildForestFromTree(cs: seq<Node>, x: Node)
    requires x in cs
    ensures multiset(Ids(Nodes(x))) <= multiset(Ids(NodesSeq(cs)))
  {
    IdsAppend(Nodes(cs[0]), NodesSeq(cs[1..]));
    if x != cs[0] {
      ChildForestFromTree(cs[1..], x);
    }
  }

  /** The walker visits distinct text nodes, all inside the document. */
  lemma WalkerTextsFromTree(d: Document, root: Node)
    requires Valid(d) && root in d.nodes && root.Element?
    ensures Distinct(Ids(WalkerTexts(root)))
    ensures forall t :: t in WalkerTexts(root) ==> t in NodesSeq(d.nodes) && t.TextNode?
  {
    ChildForestFromTree(d.nodes, root);
    IdsAppend([root], NodesSeq(root.children));
    TextNodesFromTree(root.children);
    DistinctSub(Ids(TextNodesSeq(root.children)), Ids(NodesSeq(d.nodes)));
    forall t | t in WalkerTexts(root) ensures t in NodesSeq(d.nodes) {
      NodesInTree(d.nodes, root, t);
    }
  }

  lemma {:induction false} NodesInTree(cs: seq<Node>, x: Node, t: Node)
    requires x in cs && x.Element? && t in NodesSeq(x.children)
    ensures t in NodesSeq(cs)
  {
    if x != cs[0] {
      NodesInTree(cs[1..], x, t);
    }
  }

  /**
    The whitespace pass on one walker text node: a node with data has it trimmed, and is detached
    exactly when the trimmed data is empty; a node without data is left alone.
  */
  lemma WhitespaceEffect(d: Document, k: nat)
    requires Valid(d) && DocumentElement(d).Some?
    requires k < |WalkerTexts(DocumentElement(d).value)|
    ensures var ts := WalkerTexts(DocumentElement(d).value);
      var t := ts[k];
      t.TextNode? &&
      (t.id in TrimEdits(ts, |ts|) <==> t.value != []) &&
      (t.id in TrimEdits(ts, |ts|) ==> TrimEdits(ts, |ts|)[t.id] == Trim(t.value)) &&
      (t.id in IdsWhere(ts, |ts|, IsBlankText) <==> t.value != [] && IsBlank(t.value))
  {
    var root := DocumentElement(d).value;
    var ts := WalkerTexts(root);
    WalkerTextsFromTree(d, root);
    assert ts[k] in ts;
    TextPatchOfFacts(ts, |ts|, HasData, TrimmedData, k);
    IdsWhereIff(ts, |ts|, IsBlankText, k);
    TrimEmptyIffBlank(ts[k].value);
  }

  /**
    Visiting walker text node `i`: from the tree left by the first `i` visits, a node with data
    has its trimmed data written and is then detached when that is empty.
  */
  lemma WhitespaceStep(d: Document, ts: seq<Node>, i: nat)
    requires i < |ts|
    ensures var pre := PruneDoc(EditTextsDoc(d, TrimEdits(ts, i)), IdsWhere(ts, i, IsBlankText));
      var post := PruneDoc(EditTextsDoc(d, TrimEdits(ts, i + 1)), IdsWhere(ts, i + 1, IsBlankText));
      var t := ts[i];
      var m := map[t.id := TrimmedData(t)];
      (!HasData(t) ==> post == pre) &&
      (HasData(t) && IsBlankText(t) ==> post == PruneDoc(EditTextsDoc(pre, m), {t.id})) &&
      (HasData(t) && !IsBlankText(t) ==> post == EditTextsDoc(pre, m))
  {
    var t := ts[i];
    if !HasData(t) {
      WhitespaceSkip(d, ts, i);
    } else if IsBlankText(t) {
      WhitespaceDetach(d, ts, i);
    } else {
      WhitespaceTrim(d, ts, i);
    }
  }

  /** A walker text node without data is passed over. */
  lemma WhitespaceSkip(d: Document, ts: seq<Node>, i: nat)
    requires i < |ts| && !HasData(ts[i])
    ensures TrimEdits(ts, i + 1) == TrimEdits(ts, i)
    ensures IdsWhere(ts, i + 1, IsBlankText) == IdsWhere(ts, i, IsBlankText)
  {
    TextPatchOfStep(ts, i, HasData, TrimmedData);
    WhereStep(ts, i, IsBlankText);
    assert !IsBlankText(ts[i]);
  }

  /** A walker text node whose trimmed data is not empty has that data written. */
  lemma WhitespaceTrim(d: Document, ts: seq<Node>, i: nat)
    requires i < |ts| && HasData(ts[i]) && !IsBlankText(ts[i])
    ensures PruneDoc(EditTextsDoc(d, TrimEdits(ts, i + 1)), IdsWhere(ts, i + 1, IsBlankText)) ==
      EditTextsDoc(PruneDoc(EditTextsDoc(d, TrimEdits(ts, i)), IdsWhere(ts, i, IsBlankText)), map[ts[i].id := TrimmedData(ts[i])])
  {
    var m := map[ts[i].id := TrimmedData(ts[i])];
    TextPatchOfStep(ts, i, HasData, TrimmedData);
    WhereStep(ts, i, IsBlankText);
    assert TrimEdits(ts, i + 1) == TrimEdits(ts, i) + m;
    assert IdsWhere(ts, i + 1, IsBlankText) == IdsWhere(ts, i, IsBlankText);
    EditTextsAfterPrune(d, TrimEdits(ts, i), IdsWhere(ts, i, IsBlankText), m);
  }

  /** A walker text node whose trimmed data is empty has it written and is then detached. */
  lemma WhitespaceDetach(d: Document, ts: seq<Node>, i: nat)
    requires i < |ts| && IsBlankText(ts[i])
    ensures PruneDoc(EditTextsDoc(d, TrimEdits(ts, i + 1)), IdsWhere(ts, i + 1, IsBlankText)) ==
      PruneDoc(EditTextsDoc(PruneDoc(EditTextsDoc(d, TrimEdits(ts, i)), IdsWhere(ts, i, IsBlankText)), map[ts[i].id := TrimmedData(ts[i])]), {ts[i].id})
  {
    var m := map[ts[i].id := TrimmedData(ts[i])];
    TextPatchOfStep(ts, i, HasData, TrimmedData);
    WhereStep(ts, i, IsBlankText);
    assert HasData(ts[i]);
    assert TrimEdits(ts, i + 1) == TrimEdits(ts, i) + m;
    assert IdsWhere(ts, i + 1, IsBlankText) == IdsWhere(ts, i, IsBlankText) + {ts[i].id};
    DetachAfterTrim(d, TrimEdits(ts, i), IdsWhere(ts, i, IsBlankText), m, ts[i].id);
  }

  /** Writing one more text and detaching one more node, after earlier writes and detaching. */
  lemma DetachAfterTrim(d: Document, e: map<nat, string>, v: set<nat>, m: map<nat, string>, x: nat)
    ensures PruneDoc(EditTextsDoc(d, e + m), v + {x}) == PruneDoc(EditTextsDoc(PruneDoc(EditTextsDoc(d, e), v), m), {x})
  {
    EditTextsAfterPrune(d, e, v, m);
    PruneDocTwice(EditTextsDoc(d, e + m), v, {x});
  }
}
