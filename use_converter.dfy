/**
  The converter hook of the second application: the SVG text is optionally optimized, checked to
  hold an `svg` element, optionally stripped of its `<style>` sheets and inline styles (which become
  CSS-module classes), rewritten by a chain of replaces (hyphenated presentation attributes,
  `class=`, `style="…"` to a style object, ids, comments, quotes) and placed in a TypeScript or
  JavaScript component template, which may then be reformatted.
*/
module UseConverter {
  import opened Wrappers
  import opened Text
  import opened Rewrite
  import opened Dom
  import opened DomFacts
  import opened ExtractCss
  import SvgToJsx
  import SvgUtils

  datatype ConverterOptions = ConverterOptions(
    cleanupIds: bool,
    quotes: bool,
    memo: bool,
    typescript: bool,
    removeComments: bool,
    formatCode: bool,
    extractCss: bool,
    optimizeSvg: bool)

  // ---------------------------------------------------------------- the component name

  /** `/[^a-zA-Z0-9]/g` */
  const NonAlnum: Matcher := (s: string, i: nat) => if i < |s| && !IsAlnum(s[i]) then 1 else 0

  /** The characters of `s` in `[a-zA-Z0-9]`, in order. */
  function AlnumOnly(s: string): (r: string)
    ensures forall i :: 0 <= i < |r| ==> IsAlnum(r[i])
    ensures |r| <= |s|
  {
    if s == [] then [] else (if IsAlnum(s[0]) then [s[0]] else []) + AlnumOnly(s[1..])
  }

  const DefaultName := "SvgIcon"

  /** `fileName.replace(/[^a-zA-Z0-9]/g, "") || "SvgIcon"` */
  function ComponentName(fileName: string): string
  {
    var kept := ReplaceGlobal(fileName, NonAlnum, Const(""));
    if kept == [] then DefaultName else kept
  }

  /** Deleting every character outside `[a-zA-Z0-9]` keeps the others in order. */
  lemma {:induction false} AlnumFrom(s: string, i: nat)
    requires i <= |s|
    ensures ReplaceFrom(s, i, NonAlnum, Const("")) == AlnumOnly(s[i..])
    decreases |s| - i
  {
    if i < |s| {
      AlnumFrom(s, i + 1);
      assert s[i..][0] == s[i] && s[i..][1..] == s[i + 1..];
    }
  }

  lemma {:induction false} AlnumKept(s: string)
    requires forall i :: 0 <= i < |s| ==> IsAlnum(s[i])
    ensures AlnumOnly(s) == s
  {
    if s != [] {
      AlnumKept(s[1..]);
    }
  }

  /**
    The component name is the file name's letters and digits in order, or `SvgIcon` where it has
    none; it is never empty and holds letters and digits only, and a file name made of letters and
    digits is used as it is.
  */
  lemma ComponentNameFacts(fileName: string)
    ensures var name := ComponentName(fileName);
      name == (if AlnumOnly(fileName) == [] then DefaultName else AlnumOnly(fileName)) &&
      name != [] && (forall i :: 0 <= i < |name| ==> IsAlnum(name[i])) &&
      (fileName != [] && (forall i :: 0 <= i < |fileName| ==> IsAlnum(fileName[i])) ==> name == fileName)
  {
    AlnumFrom(fileName, 0);
    assert fileName[0..] == fileName;
    assert IsAlnum(DefaultName[0]) && IsAlnum(DefaultName[1]) && IsAlnum(DefaultName[2]) && IsAlnum(DefaultName[3]);
    assert IsAlnum(DefaultName[4]) && IsAlnum(DefaultName[5]) && IsAlnum(DefaultName[6]);
    if fileName != [] && forall i :: 0 <= i < |fileName| ==> IsAlnum(fileName[i]) {
      AlnumKept(fileName);
    }
  }

  // ---------------------------------------------------------------- quotes

  /** `.replace(/="/g, '="').replace(/"/g, '"')` */
  function FormatQuotes(s: string): string
  {
    ReplaceLiteral(ReplaceLiteral(s, "=\"", "=\""), "\"", "\"")
  }

  /** Both quote rewrites put back what they match, so the `quotes` option never changes the text. */
  lemma QuotesUnchanged(s: string)
    ensures FormatQuotes(s) == s
  {
    LiteralSelfKeeps(s, "=\"");
    LiteralSelfKeeps(s, "\"");
  }

  // ---------------------------------------------------------------- camel case

  /** `/-([a-z])/g` */
  const HyphenLetter: Matcher := (s: string, i: nat) => if i + 1 < |s| && s[i] == '-' && IsLower(s[i + 1]) then 2 else 0

  /** `(_, letter) => letter.toUpperCase()` */
  const UpperLetter: string -> string := (m: string) => if |m| == 2 then [UpperChar(m[1])] else m

  /** No `-` is followed by a lower-case letter. */
  predicate NoHyphenLetter(r: string)
  {
    forall i :: 0 <= i < |r| - 1 ==> !(r[i] == '-' && IsLower(r[i + 1]))
  }

  predicate StartsHyphenLetter(p: string)
  {
    |p| >= 2 && p[0] == '-' && IsLower(p[1])
  }

  /**
    Camel case read from the left: `-x` for a lower-case letter `x` becomes `X`, every other
    character is kept. No `-` followed by a lower-case letter is left, and a name without `-` is
    unchanged.
  */
  function Camelized(p: string): (r: string)
    ensures NoHyphenLetter(r)
    ensures (r == []) == (p == [])
    ensures p != [] && StartsHyphenLetter(p) ==> IsUpper(r[0])
    ensures p != [] && !StartsHyphenLetter(p) ==> r[0] == p[0]
    ensures '-' !in p ==> r == p
  {
    if p == [] then []
    else if StartsHyphenLetter(p) then [UpperChar(p[1])] + Camelized(p[2..])
    else
      assert p[0] == '-' ==> |p| < 2 || !IsLower(p[1]);
      [p[0]] + Camelized(p[1..])
  }

  /** `property.replace(/-([a-z])/g, (_, letter) => letter.toUpperCase())` */
  function CamelCaseProp(p: string): string
  {
    ReplaceGlobal(p, HyphenLetter, UpperLetter)
  }

  lemma {:induction false} CamelFrom(p: string, i: nat)
    requires i <= |p|
    ensures ReplaceFrom(p, i, HyphenLetter, UpperLetter) == Camelized(p[i..])
    decreases |p| - i
  {
    if i < |p| {
      var t := p[i..];
      if StartsHyphenLetter(t) {
        assert MatchAt(p, i, HyphenLetter) == 2;
        CamelFrom(p, i + 2);
        assert t[2..] == p[i + 2..] && p[i..i + 2][1] == p[i + 1];
      } else {
        assert MatchAt(p, i, HyphenLetter) == 0;
        CamelFrom(p, i + 1);
        assert t[1..] == p[i + 1..];
      }
    }
  }

  /** The replace is camel case read from the left, so it leaves no `-x` and keeps a name without `-`. */
  lemma CamelCased(p: string)
    ensures CamelCaseProp(p) == Camelized(p)
    ensures NoHyphenLetter(CamelCaseProp(p))
    ensures '-' !in p ==> CamelCaseProp(p) == p
  {
    CamelFrom(p, 0);
    assert p[0..] == p;
  }

  // ---------------------------------------------------------------- the style object

  /**
    One entry of a `style` text: `[property, value] = style.split(':').map(s => s.trim())`, as
    `${camelCaseProp}: "${value}"`; a missing value reads `undefined`, and text after a second
    `:` is dropped.
  */
  function Declaration(style: string): (r: string)
    ensures r != []
  {
    var parts := Split(style, ':');
    var property := Trim(parts[0]);
    var value := if |parts| >= 2 then Trim(parts[1]) else Undefined;
    Entry(CamelCaseProp(property), value)
  }

  /** What a template literal writes for an `undefined` value. */
  const Undefined := "undefined"

  /** `${property}: "${value}"` */
  function Entry(property: string, value: string): (r: string)
    ensures r != []
  {
    property + ": \"" + value + "\""
  }

  /** `.filter(Boolean)` on strings: the empty ones are dropped. */
  function NonEmpty(parts: seq<string>): (r: seq<string>)
    ensures forall k :: 0 <= k < |r| ==> r[k] != []
  {
    if parts == [] then [] else (if parts[0] != [] then [parts[0]] else []) + NonEmpty(parts[1..])
  }

  function Declarations(parts: seq<string>): (r: seq<string>)
    ensures |r| == |parts| && forall k :: 0 <= k < |parts| ==> r[k] == Declaration(parts[k])
  {
    seq(|parts|, k requires 0 <= k < |parts| => Declaration(parts[k]))
  }

  /** The style object of a `style` attribute's text: `split(';')`, `filter(Boolean)`, `map`, `join(', ')`. */
  function StyleObject(content: string): string
  {
    Join(Declarations(NonEmpty(Split(content, ';'))), ", ")
  }

  /** `/style="([^"]*)"/g`: `style="` and the value up to the next `"`. */
  const StyleAttr: Matcher := (s: string, i: nat) =>
    if OccursAt(s, i, "style=\"") then
      var q := FindChar(s, i + 7, '"');
      if q < |s| then q + 1 - i else 0
    else 0

  /** The replacement `style={{${styleObject}}}`, where the group is the text between the quotes. */
  const ToStyleObject: string -> string := StyleReplacementOf

  /** What one match `m` of the style expression is replaced with. */
  function StyleReplacementOf(m: string): string
  {
    if |m| >= 8 then StyleProp(m[7..|m| - 1]) else m
  }

  /** `style={{${styleObject}}}` for the style text `content`. */
  function StyleProp(content: string): string
  {
    "style={{" + StyleObject(content) + "}}"
  }

  // ---------------------------------------------------------------- facts about split, filter and join

  lemma {:induction false} NonEmptyConcat(x: seq<string>, y: seq<string>)
    ensures NonEmpty(x + y) == NonEmpty(x) + NonEmpty(y)
  {
    if x != [] {
      assert (x + y)[0] == x[0] && (x + y)[1..] == x[1..] + y;
      NonEmptyConcat(x[1..], y);
    } else {
      assert x + y == y;
    }
  }

  lemma JoinEmptyIff(parts: seq<string>)
    ensures (Join(Declarations(parts), ", ") == []) == (parts == [])
  {
    if parts != [] {
      var ds := Declarations(parts);
      assert ds[0] != [];
    }
  }

  // ---------------------------------------------------------------- what the style object holds

  /** A declaration `p:v` becomes the camel-cased, trimmed property, `: `, and the trimmed value in quotes. */
  lemma DeclarationOf(p: string, v: string)
    requires ':' !in p && ':' !in v
    ensures Declaration(p + [':'] + v) == Entry(Camelized(Trim(p)), Trim(v))
  {
    SplitConcat(p, v, ':');
    assert Split(v, ':') == [v];
    assert Split(p, ':') == [p];
    assert Split(p + [':'] + v, ':') == [p, v];
    CamelCased(Trim(p));
  }

  /** A declaration without `:` has the value `undefined`. */
  lemma DeclarationWithoutValue(p: string)
    requires ':' !in p
    ensures Declaration(p) == Entry(Camelized(Trim(p)), Undefined)
  {
    assert Split(p, ':') == [p];
    CamelCased(Trim(p));
  }

  /** A `style` text without `;` that is not empty is one declaration. */
  lemma StyleObjectSingle(d: string)
    requires ';' !in d && d != []
    ensures StyleObject(d) == Declaration(d)
  {
    assert Split(d, ';') == [d];
    assert NonEmpty([d]) == [d] + NonEmpty([]);
    assert Declarations([d]) == [Declaration(d)];
  }

  /**
    The declarations on both sides of a `;` are joined with `, `; a side without declarations
    (empty, or only `;`) contributes nothing, so empty segments are dropped.
  */
  lemma StyleObjectConcat(a: string, b: string)
    ensures StyleObject(a + ";" + b) ==
      if StyleObject(a) == [] then StyleObject(b)
      else if StyleObject(b) == [] then StyleObject(a)
      else StyleObject(a) + ", " + StyleObject(b)
  {
    var x := NonEmpty(Split(a, ';'));
    var y := NonEmpty(Split(b, ';'));
    SplitConcat(a, b, ';');
    NonEmptyConcat(Split(a, ';'), Split(b, ';'));
    assert Declarations(x + y) == Declarations(x) + Declarations(y);
    JoinEmptyIff(x);
    JoinEmptyIff(y);
    if x != [] && y != [] {
      JoinConcat(Declarations(x), Declarations(y), ", ");
    } else if x == [] {
      assert x + y == y;
    } else {
      assert x + y == x;
    }
  }

  /** A `style="…"` attribute, up to the next `"`, is one match of the style expression. */
  lemma StyleMatchLength(s: string, i: nat, q: nat)
    requires OccursAt(s, i, "style=\"") && q == FindChar(s, i + 7, '"') < |s|
    ensures MatchAt(s, i, StyleAttr) == q + 1 - i
  {
  }

  /** The match from `i` to the closing quote at `q` becomes `style={{…}}` around the style object of the value. */
  lemma StyleValueReplaced(s: string, i: nat, q: nat)
    requires i + 7 <= q < |s|
    ensures ToStyleObject(s[i..q + 1]) == StyleProp(s[i + 7..q])
  {
    var t := s[i..q + 1];
    SliceOfSlice(s, i, q + 1, 7, q - i);
    assert |t| - 1 == q - i;
    assert t[7..|t| - 1] == s[i + 7..q];
    StyleReplacement(t);
  }

  lemma SliceOfSlice(s: string, i: nat, j: nat, a: nat, b: nat)
    requires i <= j <= |s| && a <= b <= j - i
    ensures s[i..j][a..b] == s[i + a..i + b]
  {
    var u, v := s[i..j][a..b], s[i + a..i + b];
    assert forall k :: 0 <= k < |u| ==> u[k] == v[k];
  }

  lemma StyleReplacement(t: string)
    requires |t| >= 8
    ensures ToStyleObject(t) == StyleProp(t[7..|t| - 1])
  {
    assert ToStyleObject(t) == StyleReplacementOf(t);
  }

  // ---------------------------------------------------------------- ids

  /** `/\s*id="[^"]*"/g`: the whitespace run, `id="`, and the value up to the next `"`. */
  const IdAttr: Matcher := (s: string, i: nat) =>
    if i <= |s| then
      var r := SkipSpaces(s, i);
      if OccursAt(s, r, "id=\"") then
        var q := FindChar(s, r + 4, '"');
        if q < |s| then q + 1 - i else 0
      else 0
    else 0

  /**
    What a match of the id expression from `k` to `e` covers: the whitespace from `k` to `r`, then
    `id="`, a value without `"`, and `"`.
  */
  predicate IdAttributeAt(s: string, k: nat, r: nat, e: nat)
  {
    k <= r && r + 5 <= e <= |s| && IsBlank(s[k..r]) && OccursAt(s, r, "id=\"") && s[e - 1] == '"' &&
    forall j :: r + 4 <= j < e - 1 ==> s[j] != '"'
  }

  function CleanIds(s: string, cleanupIds: bool): string
  {
    if cleanupIds then ReplaceGlobal(s, IdAttr, Const("")) else s
  }

  /**
    The first match of the id expression is removed with the whitespace before it, and the text
    before it is kept; what it removes is an `id="…"` attribute.
  */
  lemma FirstIdRemoved(s: string, m: Matcher, k: nat)
    requires m == IdAttr && FirstMatch(s, 0, m) == Some(k)
    ensures k + MatchAt(s, k, m) <= |s|
    ensures ReplaceGlobal(s, m, Const("")) == s[..k] + ReplaceFrom(s, k + MatchAt(s, k, m), m, Const(""))
    ensures IdAttributeAt(s, k, SkipSpaces(s, k), k + MatchAt(s, k, m))
  {
    IdAttrAt(s, m, k);
    DeleteGlobalFirst(s, m, k);
  }

  lemma IdAttrAt(s: string, m: Matcher, k: nat)
    requires m == IdAttr && MatchAt(s, k, m) > 0
    ensures k < |s| && IdAttributeAt(s, k, SkipSpaces(s, k), k + MatchAt(s, k, m))
  {
    assert k <= |s|;
    var r := SkipSpaces(s, k);
    assert r + 4 <= |s| && OccursAt(s, r, "id=\"");
    var q := FindChar(s, r + 4, '"');
    assert q < |s| && MatchAt(s, k, m) == q + 1 - k;
    IdPieces(s, k, r, q);
  }

  /** Whitespace from `k` to `r`, `id="` at `r` and the next `"` at `q` make an id attribute. */
  lemma IdPieces(s: string, k: nat, r: nat, q: nat)
    requires k <= r <= |s| && forall j :: k <= j < r ==> IsSpace(s[j])
    requires OccursAt(s, r, "id=\"") && r + 4 <= q < |s| && s[q] == '"'
    requires forall j :: r + 4 <= j < q ==> s[j] != '"'
    ensures IdAttributeAt(s, k, r, q + 1)
  {
    assert IsBlank(s[k..r]) by {
      forall i | 0 <= i < r - k ensures IsSpace(s[k..r][i]) {
        assert s[k..r][i] == s[k + i];
      }
    }
  }

  // ---------------------------------------------------------------- the template rewrites

  /** `/name="[^"]*"/`: `name="` and the value up to the next `"`. */
  function AttrValue(name: string): Matcher
  {
    (s: string, i: nat) =>
      if OccursAt(s, i, name + "=\"") then
        var q := FindChar(s, i + |name| + 2, '"');
        if q < |s| then q + 1 - i else 0
      else 0
  }

  const StrokeCurrentColor := "stroke=\"currentColor\""

  /** The first `width="…"`, then the first `height="…"`, then the first `stroke="currentColor"`. */
  function Sized(s: string): string
  {
    var w := ReplaceFirst(s, AttrValue("width"), Const("width={size}"));
    var h := ReplaceFirst(w, AttrValue("height"), Const("height={size}"));
    ReplaceFirst(h, Literal(StrokeCurrentColor), Const("stroke={color || \"currentColor\"}"))
  }

  /**
    Only the first `name="…"` is replaced: the text before and after it is kept as it is. The
    matcher is passed as `m`, equal to the expression for `name`.
  */
  lemma AttrValueFirst(s: string, name: string, m: Matcher, t: string, k: nat) returns (q: nat)
    requires m == AttrValue(name) && FirstMatch(s, 0, m) == Some(k)
    ensures k + |name| + 2 <= q < |s| && s[q] == '"' && forall j :: k + |name| + 2 <= j < q ==> s[j] != '"'
    ensures ReplaceFirst(s, m, Const(t)) == s[..k] + t + s[q + 1..]
  {
    AttrValueAt(s, name, m, k, k + |name| + 2);
    q := FindChar(s, k + |name| + 2, '"');
    ReplaceFirstEnds(s, m, Const(t), k, q + 1);
  }

  /** Where `name="` starts a match, the match ends at the next `"`. */
  lemma AttrValueAt(s: string, name: string, m: Matcher, k: nat, v: nat)
    requires m == AttrValue(name) && MatchAt(s, k, m) > 0 && v == k + |name| + 2
    ensures OccursAt(s, k, name + "=\"")
    ensures FindChar(s, v, '"') < |s| && MatchAt(s, k, m) == FindChar(s, v, '"') + 1 - k
  {
  }

  /** Only the first occurrence of a literal is replaced. */
  lemma LiteralFirst(s: string, p: string, t: string, k: nat)
    requires FirstMatch(s, 0, Literal(p)) == Some(k)
    ensures ReplaceFirst(s, Literal(p), Const(t)) == s[..k] + t + s[k + |p|..]
  {
    ReplaceFirstAt(s, Literal(p), Const(t), k, |p|);
  }

  /** `/class="([^"]*)"/g` */
  const ClassAttr: Matcher := AttrValue("class")

  /** ``className={`${styles.$1} ${className || ""}`}`` */
  function ClassReference(value: string): string
  {
    "className={`${styles." + value + "} ${className || \"\"}`}"
  }

  const ToClassReference: string -> string := (m: string) => if |m| >= 8 then ClassReference(m[7..|m| - 1]) else m

  function StyledClasses(s: string): string
  {
    ReplaceGlobal(s, ClassAttr, ToClassReference)
  }

  /**
    A global replace of `class="…"` keeps the text before the first such attribute, replaces the
    attribute up to its closing `"`, and carries on right after it; `m` is the expression for the
    attribute `name` (`class` here, whose value starts 7 characters in).
  */
  lemma FirstClassReplaced(s: string, name: string, m: Matcher, rep: string -> string, k: nat) returns (q: nat)
    requires m == AttrValue(name) && FirstMatch(s, 0, m) == Some(k)
    ensures k + |name| + 2 <= q < |s| && s[q] == '"' && forall j :: k + |name| + 2 <= j < q ==> s[j] != '"'
    ensures ReplaceGlobal(s, m, rep) == s[..k] + rep(s[k..q + 1]) + ReplaceFrom(s, q + 1, m, rep)
  {
    AttrValueAt(s, name, m, k, k + |name| + 2);
    q := FindChar(s, k + |name| + 2, '"');
    ReplaceGlobalFirstEnds(s, m, rep, k, q + 1);
  }

  /** A `class="v"` attribute becomes ``className={`${styles.v} ${className || ""}`}``. */
  lemma ClassValueAt(s: string, rep: string -> string, k: nat, q: nat)
    requires rep == ToClassReference && k + 7 <= q < |s|
    ensures rep(s[k..q + 1]) == ClassReference(s[k + 7..q])
  {
    var u, v := s[k..q + 1][7..q - k], s[k + 7..q];
    assert |u| == |v|;
    assert forall i :: 0 <= i < |u| ==> u[i] == v[i];
  }

  // ---------------------------------------------------------------- the attribute rewrites

  /** The literal rewrites made before the style conversion, in the order they are applied. */
  const AttributeRewrites: seq<(string, string)> := [
    ("stroke-width", "strokeWidth"),
    ("stroke-linecap", "strokeLinecap"),
    ("stroke-linejoin", "strokeLinejoin"),
    ("fill-rule", "fillRule"),
    ("clip-rule", "clipRule"),
    ("class=", "className=")]

  /** `s.replace(/p1/g, t1)…replace(/pn/g, tn)`: the literal rewrites of `pairs`, first to last. */
  function RewriteAll(s: string, pairs: seq<(string, string)>): string
  {
    if pairs == [] then s else ReplaceLiteral(RewriteAll(s, pairs[..|pairs| - 1]), pairs[|pairs| - 1].0, pairs[|pairs| - 1].1)
  }

  /** No pattern of `pairs` occurs in `s`. */
  predicate NoPattern(s: string, pairs: seq<(string, string)>)
  {
    forall k, i :: 0 <= k < |pairs| && 0 <= i < |s| ==> !OccursAt(s, i, pairs[k].0)
  }

  /** A text in which no pattern occurs goes through the rewrites unchanged. */
  lemma {:induction false} NoPatternUnchanged(s: string, pairs: seq<(string, string)>)
    requires NoPattern(s, pairs)
    ensures RewriteAll(s, pairs) == s
    decreases |pairs|
  {
    if pairs != [] {
      var init := pairs[..|pairs| - 1];
      assert NoPattern(s, init) by {
        forall k, i | 0 <= k < |init| && 0 <= i < |s| ensures !OccursAt(s, i, init[k].0) {
          assert init[k] == pairs[k];
        }
      }
      NoPatternUnchanged(s, init);
      var p := pairs[|pairs| - 1].0;
      assert forall i :: 0 <= i < |s| ==> MatchAt(s, i, Literal(p)) == 0 by {
        forall i | 0 <= i < |s| ensures MatchAt(s, i, Literal(p)) == 0 {
          assert !OccursAt(s, i, pairs[|pairs| - 1].0);
        }
      }
      NoMatchKeeps(s, 0, Literal(p), Const(pairs[|pairs| - 1].1));
      assert s[0..] == s;
    }
  }

  /** The id clean-up finds nothing to remove in a text without `id="`. */
  lemma IdsKeptWithout(s: string)
    requires forall i :: 0 <= i < |s| ==> !OccursAt(s, i, "id=\"")
    ensures CleanIds(s, true) == s
  {
    forall j | 0 <= j < |s| ensures MatchAt(s, j, IdAttr) == 0 {
      assert !OccursAt(s, SkipSpaces(s, j), "id=\"");
    }
    NoMatchKeeps(s, 0, IdAttr, Const(""));
    assert s[0..] == s;
  }

  // ---------------------------------------------------------------- the component text

  /** The text after the literal rewrites and the style conversion. */
  function Rewritten(s: string): string
  {
    ReplaceGlobal(RewriteAll(s, AttributeRewrites), StyleAttr, ToStyleObject)
  }

  /** `jsxContent` as it goes into the template: rewritten, then ids, comments and quotes as the options ask. */
  function JsxContent(s: string, o: ConverterOptions): string
  {
    var c := SvgToJsx.StripComments(CleanIds(Rewritten(s), o.cleanupIds), o.removeComments);
    if o.quotes then FormatQuotes(c) else c
  }

  /** The quote formatting changes nothing, so the `quotes` option has no effect on the content. */
  lemma QuotesIgnored(s: string, o: ConverterOptions)
    ensures JsxContent(s, o) == JsxContent(s, o.(quotes := !o.quotes))
  {
    QuotesUnchanged(SvgToJsx.StripComments(CleanIds(Rewritten(s), o.cleanupIds), o.removeComments));
  }

  /** What the template puts inside `return (…)`: the size and colour props, then the class references. */
  function Body(content: string): string
  {
    StyledClasses(Sized(content))
  }

  /** The CSS-module import, present when CSS was extracted. */
  function CssImport(name: string, css: string): string
  {
    if css != [] then CssImportLine(name) else ""
  }

  function CssImportLine(name: string): string
  {
    "import styles from \"./" + name + ".module.css\";\n\n"
  }

  function ReactImport(memo: bool): string
  {
    "import React" + (if memo then ", { memo }" else "") + " from \"react\";\n\n"
  }

  /** The default export: `memo(Name)` or `Name`. */
  function ExportLine(memo: bool, name: string): string
  {
    "\n\nexport default " + (if memo then "memo(" + name + ")" else name) + ";"
  }

  /** The fixed lines of the two templates. */
  const TsPropsInterface := "Props {\n  className?: string;\n  size?: number;\n  color?: string;\n}\n\n"
  const TsArrowHead := "Props> = ({ \n  className, \n  size = 24,\n  color\n}) => {\n"
  const JsArrowHead := " = ({ className, size = 24, color }) => {\n"
  const ReturnOpen := "  return (\n    "
  const ReturnClose := "\n  );\n};"

  /** The TypeScript component: a props interface and a typed arrow function. */
  function TsDeclaration(name: string, body: string): string
  {
    "interface " + name + TsPropsInterface + "const " + name + ": React.FC<" + name + TsArrowHead + ReturnOpen + body + ReturnClose
  }

  function JsDeclaration(name: string, body: string): string
  {
    "const " + name + JsArrowHead + ReturnOpen + body + ReturnClose
  }

  /** The component module: CSS import, React import, declaration and default export. */
  function ComponentDeclaration(typescript: bool, name: string, body: string): string
  {
    if typescript then TsDeclaration(name, body) else JsDeclaration(name, body)
  }

  /** The component module: CSS import, React import, declaration and default export. */
  function Component(css: string, typescript: bool, memo: bool, name: string, body: string): string
  {
    CssImport(name, css) + ReactImport(memo) + ComponentDeclaration(typescript, name, body) + ExportLine(memo, name)
  }

  lemma ReactImportHead(memo: bool, h: string)
    requires h == "import React"
    ensures StartsWith(ReactImport(memo), h) && |h| > 7 && h[7] == 'R'
  { }

  lemma CssImportHead(name: string, h: string)
    requires h == "import styles"
    ensures StartsWith(CssImportLine(name), h) && |h| > 7 && h[7] == 's'
  { }

  /** The module starts with the CSS-module import exactly when CSS was extracted. */
  lemma CssImportIff(css: string, typescript: bool, memo: bool, name: string, body: string)
    ensures StartsWith(Component(css, typescript, memo, name, body), CssImportLine(name)) <==> css != []
  {
    var a, b := "import React", "import styles";
    ReactImportHead(memo, a);
    CssImportHead(name, b);
    HeaderIff(CssImport(name, css), ReactImport(memo), ComponentDeclaration(typescript, name, body),
      ExportLine(memo, name), CssImportLine(name), a, b, css != []);
  }

  /** A module made of an optional `line`, then text starting with `a`, starts with `line` exactly when the line is there. */
  lemma HeaderIff(c: string, r: string, d: string, e: string, line: string, a: string, b: string, present: bool)
    requires if present then c == line else c == []
    requires StartsWith(r, a) && StartsWith(line, b) && 7 < |a| && 7 < |b| && a[7] != b[7]
    ensures StartsWith(c + r + d + e, line) <==> present
  {
    if present {
      StartsSelf(line);
      StartsConcat(line, r, line);
      StartsConcat(line + r, d, line);
      StartsConcat(line + r + d, e, line);
    } else {
      assert c + r == r;
      StartsConcat(r, d, a);
      StartsConcat(r + d, e, a);
      StartsApart(c + r + d + e, a, line, b, 7);
    }
  }

  lemma ExportTail(memo: bool, name: string, p: string, h: string)
    requires name != [] && p == "export default memo(" + name + ");" && h == "\n\n"
    ensures memo ==> EndsWith(ExportLine(memo, name), p)
    ensures !memo ==> EndsWith(ExportLine(memo, name), [name[|name| - 1]] + ";")
  {
    if memo {
      assert ExportLine(memo, name) == h + p;
      EndsConcat(h, p, p);
    } else {
      var e := ExportLine(memo, name);
      assert e == h + "export default " + name + ";";
      assert e[|e| - 2..] == [name[|name| - 1]] + ";";
    }
  }

  /**
    The default export is `memo(Name)` exactly when the option asks for it, for a name that does
    not end in `)` (the component name is made of letters and digits).
  */
  lemma MemoExportIff(css: string, typescript: bool, memo: bool, name: string, body: string)
    requires name != [] && name[|name| - 1] != ')'
    ensures EndsWith(Component(css, typescript, memo, name, body), "export default memo(" + name + ");") <==> memo
  {
    var front := CssImport(name, css) + ReactImport(memo) + ComponentDeclaration(typescript, name, body);
    assert Component(css, typescript, memo, name, body) == front + ExportLine(memo, name);
    MemoExportAfter(front, memo, name);
  }

  /** Whatever precedes the export line, the text ends in `memo(Name);` exactly when `memo` is on. */
  lemma MemoExportAfter(front: string, memo: bool, name: string)
    requires name != [] && name[|name| - 1] != ')'
    ensures EndsWith(front + ExportLine(memo, name), "export default memo(" + name + ");") <==> memo
  {
    var p := "export default memo(" + name + ");";
    var e := ExportLine(memo, name);
    ExportTail(memo, name, p, "\n\n");
    if memo {
      EndsConcat(front, e, p);
    } else {
      var a, b := [name[|name| - 1]] + ";", ");";
      EndsConcat(front, e, a);
      assert EndsWith(p, b);
      EndsApart(front + e, a, p, b, 1);
    }
  }

  // ---------------------------------------------------------------- formatJsxCode

  /** `/\s{2,}/`: a run of two or more whitespace characters, taken whole. */
  const SpaceRun: Matcher :=
    (s: string, i: nat) => if i + 1 < |s| && IsSpace(s[i]) && IsSpace(s[i + 1]) then SkipSpaces(s, i) - i else 0

  /** `formatJsxCode`: collapse whitespace runs, then break lines after `>`, `;` and `{` and before `}`. */
  function FormatJsxCode(code: string): string
  {
    var collapsed := ReplaceGlobal(code, SpaceRun, Const(" "));
    var tags := ReplaceLiteral(collapsed, "> <", ">\n<");
    var statements := ReplaceLiteral(tags, ";", ";\n");
    var braced := ReplaceLiteral(statements, "{", "{\n  ");
    ReplaceLiteral(braced, "}", "\n}")
  }

  /** Every `;` is followed by a newline. */
  predicate SemicolonsBroken(s: string)
  {
    forall i :: 0 <= i < |s| && s[i] == ';' ==> i + 1 < |s| && s[i + 1] == '\n'
  }

  /** Every `;` at or after `i` is followed by a newline. */
  predicate SemicolonsBrokenFrom(s: string, i: nat)
  {
    forall j :: i <= j < |s| && s[j] == ';' ==> j + 1 < |s| && s[j + 1] == '\n'
  }

  lemma TrimStartSkips(s: string, i: nat)
    requires i <= |s|
    ensures TrimStart(s[i..]) == s[SkipSpaces(s, i)..]
    decreases |s| - i
  {
    if i < |s| && IsSpace(s[i]) {
      assert s[i..][1..] == s[i + 1..];
      TrimStartSkips(s, i + 1);
    }
  }

  lemma CollapseRun(u: string, t: string)
    requires |u| >= 2 && IsSpace(u[0]) && IsSpace(u[1]) && t == TrimStart(u)
    ensures CollapseLongSpaces(u) == [' '] + CollapseLongSpaces(t)
  { }

  lemma CollapseOther(u: string)
    requires u != [] && !(|u| >= 2 && IsSpace(u[0]) && IsSpace(u[1]))
    ensures CollapseLongSpaces(u) == [u[0]] + CollapseLongSpaces(u[1..])
  { }

  lemma SpaceRunAt(s: string, i: nat, m: Matcher)
    requires m == SpaceRun && i < |s|
    ensures i + 1 < |s| && IsSpace(s[i]) && IsSpace(s[i + 1]) ==> MatchAt(s, i, m) == SkipSpaces(s, i) - i > 0
    ensures !(i + 1 < |s| && IsSpace(s[i]) && IsSpace(s[i + 1])) ==> MatchAt(s, i, m) == 0
  { }

  /** The first step of the formatter is the scan that `CollapseLongSpaces` describes. */
  lemma {:induction false} SpaceRunsCollapsed(s: string, i: nat, m: Matcher, rep: string -> string)
    requires m == SpaceRun && rep == Const(" ") && i <= |s|
    ensures ReplaceFrom(s, i, m, rep) == CollapseLongSpaces(s[i..])
    decreases |s| - i
  {
    if i < |s| {
      var u := s[i..];
      if i + 1 < |s| && IsSpace(s[i]) && IsSpace(s[i + 1]) {
        var j := SkipSpaces(s, i);
        SpaceRunAt(s, i, m);
        assert rep(s[i..j]) == [' '];
        ReplaceMatchStep(s, i, m, rep, j, [' ']);
        TrimStartSkips(s, i);
        SpaceRunsCollapsed(s, j, m, rep);
        CollapseRun(u, s[j..]);
      } else {
        SpaceRunAt(s, i, m);
        ReplaceSkipStep(s, i, m, rep);
        assert u[1..] == s[i + 1..];
        SpaceRunsCollapsed(s, i + 1, m, rep);
        CollapseOther(u);
      }
    }
  }

  /** After the first step no two whitespace characters are adjacent. */
  lemma CollapsedHasNoSpaceRun(code: string)
    ensures ReplaceGlobal(code, SpaceRun, Const(" ")) == CollapseLongSpaces(code)
    ensures NoSpaceRun(ReplaceGlobal(code, SpaceRun, Const(" ")))
  {
    SpaceRunsCollapsed(code, 0, SpaceRun, Const(" "));
    assert code[0..] == code;
  }

  lemma BrokenConcat(a: string, b: string)
    requires SemicolonsBroken(a) && SemicolonsBroken(b) && (a != [] ==> a[|a| - 1] != ';')
    ensures SemicolonsBroken(a + b)
  {
    var u := a + b;
    forall i | 0 <= i < |u| && u[i] == ';' ensures i + 1 < |u| && u[i + 1] == '\n' {
      if i < |a| {
        assert a[i] == ';';
      } else {
        assert b[i - |a|] == ';';
      }
    }
  }

  /** Replacing every `;` by `;` and a newline leaves no `;` without its newline. */
  lemma {:induction false} SemicolonsBreak(s: string, i: nat, m: Matcher, rep: string -> string)
    requires m == Literal(";") && rep == Const(";\n") && i <= |s|
    ensures SemicolonsBroken(ReplaceFrom(s, i, m, rep))
    decreases |s| - i
  {
    if i < |s| {
      if OccursAt(s, i, ";") {
        SemicolonsBreak(s, i + 1, m, rep);
        BrokenConcat(";\n", ReplaceFrom(s, i + 1, m, rep));
      } else {
        assert s[i..i + 1] == [s[i]];
        SemicolonsBreak(s, i + 1, m, rep);
        BrokenConcat([s[i]], ReplaceFrom(s, i + 1, m, rep));
      }
    }
  }

  /**
    Replacing a character other than `;` and newline by a text with no `;` at its end keeps every
    `;` followed by its newline.
  */
  lemma {:induction false} BrokenKept(s: string, i: nat, c: char, m: Matcher, t: string)
    requires m == Literal([c]) && c != ';' && c != '\n' && i <= |s|
    requires SemicolonsBroken(t) && (t != [] ==> t[|t| - 1] != ';')
    requires SemicolonsBrokenFrom(s, i)
    ensures SemicolonsBroken(ReplaceFrom(s, i, m, Const(t)))
    decreases |s| - i
  {
    if i < |s| {
      CharStep(s, i, c, m, t);
      if s[i] == c {
        BrokenKept(s, i + 1, c, m, t);
        BrokenConcat(t, ReplaceFrom(s, i + 1, m, Const(t)));
      } else if s[i] == ';' {
        assert s[i + 1] == '\n';
        CharStep(s, i + 1, c, m, t);
        BrokenKept(s, i + 2, c, m, t);
        assert ReplaceFrom(s, i, m, Const(t)) == [';'] + (['\n'] + ReplaceFrom(s, i + 2, m, Const(t)));
        BrokenConcat(";\n", ReplaceFrom(s, i + 2, m, Const(t)));
      } else {
        BrokenKept(s, i + 1, c, m, t);
        BrokenConcat([s[i]], ReplaceFrom(s, i + 1, m, Const(t)));
      }
    }
  }

  /** One step of replacing the character `c` by `t`: `c` gives `t`, any other character stays. */
  lemma CharStep(s: string, i: nat, c: char, m: Matcher, t: string)
    requires m == Literal([c]) && i < |s|
    ensures ReplaceFrom(s, i, m, Const(t)) == (if s[i] == c then t else [s[i]]) + ReplaceFrom(s, i + 1, m, Const(t))
  {
    assert s[i..i + 1] == [s[i]];
  }

  /** In formatted code every `;` is followed by a newline. */
  lemma FormattedBreaks(code: string)
    ensures SemicolonsBroken(FormatJsxCode(code))
  {
    var tags := ReplaceLiteral(ReplaceGlobal(code, SpaceRun, Const(" ")), "> <", ">\n<");
    var statements := ReplaceLiteral(tags, ";", ";\n");
    SemicolonsBreak(tags, 0, Literal(";"), Const(";\n"));
    var braced := ReplaceLiteral(statements, "{", "{\n  ");
    BrokenKept(statements, 0, '{', Literal("{"), "{\n  ");
    BrokenKept(braced, 0, '}', Literal("}"), "\n}");
  }

  // ---------------------------------------------------------------- convertSvgToJsx

  /**
    `optimizeSvg` of the utility module, which is not part of this model: any text function, which
    may throw.
  */
  type Optimizer = string -> Outcome<string>

  /** How the generated code reports a failure: a line comment. */
  const ErrorPrefix := "// Error: "

  const ErrorJsx := ErrorPrefix + "Invalid SVG format. Please check your input."

  lemma ErrorJsxFirst()
    ensures |ErrorJsx| > 0 && ErrorJsx[0] == '/'
  {
    assert ErrorPrefix[0] == '/';
  }

  /** What the catch block shows: the fixed message and no CSS. */
  const ErrorResult := ConversionResult(ErrorJsx, "")

  /** The module text around the template body `body`: the component, formatted when `formatCode` is on. */
  function ModuleText(css: string, body: string, fileName: string, o: ConverterOptions): string
  {
    var component := Component(css, o.typescript, o.memo, ComponentName(fileName), body);
    if o.formatCode then FormatJsxCode(component) else component
  }

  /** The component for a parsed document that holds an `svg` element. */
  function Generated(processed: string, d: Document, fileName: string, o: ConverterOptions): ConversionResult
  {
    var content := if o.extractCss then Extracted(d).jsx else processed;
    var css := if o.extractCss then Extracted(d).css else "";
    ConversionResult(ModuleText(css, Body(JsxContent(content, o)), fileName, o), css)
  }

  /** The text the parser sees: the optimiser's output when `optimizeSvg` is on, else the input. */
  function Processed(svgInput: string, o: ConverterOptions, optimize: Optimizer): Outcome<string>
  {
    if o.optimizeSvg then optimize(svgInput) else Returned(svgInput)
  }

  /** The input gets past the optimiser, the parser and the check for an `svg` element. */
  predicate Accepted(svgInput: string, o: ConverterOptions, parse: Parser, optimize: Optimizer)
  {
    var processed := Processed(svgInput, o, optimize);
    processed.Returned? && parse(processed.value).Returned? && HasMatch(parse(processed.value).value, Type("svg"))
  }

  /**
    The outputs `convertSvgToJsx` stores. `extractCssFromSvg` parses the same text again, which
    gives the same document.
  */
  function Converted(svgInput: string, fileName: string, o: ConverterOptions, parse: Parser, optimize: Optimizer): ConversionResult
  {
    var optimized := Processed(svgInput, o, optimize);
    if optimized.Threw? then ErrorResult
    else
      var processed := optimized.value;
      match parse(processed)
      case Threw(_) => ErrorResult
      case Returned(d) => if !HasMatch(d, Type("svg")) then ErrorResult else Generated(processed, d, fileName, o)
  }

  /** Every generated module starts with an `import`, so its first character is `i`. */
  lemma ComponentFirst(css: string, typescript: bool, memo: bool, name: string, body: string)
    ensures var c := Component(css, typescript, memo, name, body); |c| > 0 && c[0] == 'i'
  {
    var a, b := "import React", "import styles";
    ReactImportHead(memo, a);
    var r, d, e := ReactImport(memo), ComponentDeclaration(typescript, name, body), ExportLine(memo, name);
    var c := Component(css, typescript, memo, name, body);
    if css != [] {
      var line := CssImportLine(name);
      CssImportHead(name, b);
      StartsConcat(line, r, b);
      StartsConcat(line + r, d, b);
      StartsConcat(line + r + d, e, b);
      assert c[..|b|][0] == c[0];
    } else {
      assert CssImport(name, css) + r == r;
      StartsConcat(r, d, a);
      StartsConcat(r + d, e, a);
      assert c[..|a|][0] == c[0];
    }
  }

  /** A scan that finds no match at the first character keeps that character first. */
  lemma FirstKept(s: string, m: Matcher, rep: string -> string)
    requires |s| > 0 && MatchAt(s, 0, m) == 0
    ensures var r := ReplaceGlobal(s, m, rep); |r| > 0 && r[0] == s[0]
  {
    ReplaceSkipStep(s, 0, m, rep);
  }

  /** A literal replace keeps the first character when the literal cannot start there. */
  lemma LiteralFirstKept(s: string, p: string, t: string)
    requires |s| > 0 && |p| > 0 && p[0] != s[0]
    ensures var r := ReplaceLiteral(s, p, t); |r| > 0 && r[0] == s[0]
  {
    if |p| <= |s| {
      assert s[0..|p|][0] == s[0];
    }
    FirstKept(s, Literal(p), Const(t));
  }

  /** Formatting keeps a leading `i`: none of its patterns starts with a letter. */
  lemma FormattedFirst(code: string)
    requires |code| > 0 && code[0] == 'i'
    ensures var r := FormatJsxCode(code); |r| > 0 && r[0] == 'i'
  {
    FirstKept(code, SpaceRun, Const(" "));
    var collapsed := ReplaceGlobal(code, SpaceRun, Const(" "));
    LiteralFirstKept(collapsed, "> <", ">\n<");
    var tags := ReplaceLiteral(collapsed, "> <", ">\n<");
    LiteralFirstKept(tags, ";", ";\n");
    var statements := ReplaceLiteral(tags, ";", ";\n");
    LiteralFirstKept(statements, "{", "{\n  ");
    var braced := ReplaceLiteral(statements, "{", "{\n  ");
    LiteralFirstKept(braced, "}", "\n}");
  }

  /** Every generated module opens with an import, so it never reads as the error comment. */
  lemma ModuleFirst(css: string, body: string, fileName: string, o: ConverterOptions)
    ensures var t := ModuleText(css, body, fileName, o); |t| > 0 && t[0] == 'i'
  {
    ComponentFirst(css, o.typescript, o.memo, ComponentName(fileName), body);
    if o.formatCode {
      FormattedFirst(Component(css, o.typescript, o.memo, ComponentName(fileName), body));
    }
  }

  /** Unformatted, the module imports its CSS module exactly when there is CSS. */
  lemma ModuleCssImport(css: string, body: string, fileName: string, o: ConverterOptions)
    requires !o.formatCode
    ensures StartsWith(ModuleText(css, body, fileName, o), CssImportLine(ComponentName(fileName))) <==> css != []
  {
    CssImportIff(css, o.typescript, o.memo, ComponentName(fileName), body);
  }

  /** Unformatted, the module ends in `export default memo(Name);` exactly when `memo` is on. */
  lemma ModuleMemo(css: string, body: string, fileName: string, o: ConverterOptions)
    requires !o.formatCode
    ensures EndsWith(ModuleText(css, body, fileName, o), "export default memo(" + ComponentName(fileName) + ");") <==> o.memo
  {
    ComponentNameFacts(fileName);
    assert !IsAlnum(')');
    MemoExportIff(css, o.typescript, o.memo, ComponentName(fileName), body);
  }

  /** Formatted, every `;` of the module ends its line. */
  lemma ModuleFormatted(css: string, body: string, fileName: string, o: ConverterOptions)
    requires o.formatCode
    ensures SemicolonsBroken(ModuleText(css, body, fileName, o))
  {
    FormattedBreaks(Component(css, o.typescript, o.memo, ComponentName(fileName), body));
  }

  lemma GeneratedFirst(processed: string, d: Document, fileName: string, o: ConverterOptions)
    ensures var r := Generated(processed, d, fileName, o); |r.jsx| > 0 && r.jsx[0] == 'i'
  {
    var content := if o.extractCss then Extracted(d).jsx else processed;
    var css := if o.extractCss then Extracted(d).css else "";
    ModuleFirst(css, Body(JsxContent(content, o)), fileName, o);
  }

  /** The error text is shown exactly when the input fails the optimiser, the parser or the `svg` check. */
  lemma ErrorExactlyWhenRejected(svgInput: string, fileName: string, o: ConverterOptions, parse: Parser, optimize: Optimizer)
    ensures Converted(svgInput, fileName, o, parse, optimize).jsx == ErrorJsx <==> !Accepted(svgInput, o, parse, optimize)
    ensures !Accepted(svgInput, o, parse, optimize) ==> Converted(svgInput, fileName, o, parse, optimize) == ErrorResult
    ensures Accepted(svgInput, o, parse, optimize) ==>
      var processed := Processed(svgInput, o, optimize).value;
      Converted(svgInput, fileName, o, parse, optimize) == Generated(processed, parse(processed).value, fileName, o)
  {
    if Accepted(svgInput, o, parse, optimize) {
      var processed := Processed(svgInput, o, optimize).value;
      GeneratedFirst(processed, parse(processed).value, fileName, o);
      ErrorJsxFirst();
    }
  }

  /** CSS output only ever comes from a successful conversion with `extractCss` on. */
  lemma CssOnlyExtracted(svgInput: string, fileName: string, o: ConverterOptions, parse: Parser, optimize: Optimizer)
    ensures Converted(svgInput, fileName, o, parse, optimize).css != [] ==> o.extractCss && Accepted(svgInput, o, parse, optimize)
  { }

  /**
    The component for a document, unformatted, imports its CSS module exactly when it comes with CSS
    and exports `memo(Name)` exactly when `memo` is on; formatted, every `;` ends its line.
  */
  lemma GeneratedShape(processed: string, d: Document, fileName: string, o: ConverterOptions)
    ensures var r := Generated(processed, d, fileName, o); var name := ComponentName(fileName);
      !o.formatCode ==>
        (StartsWith(r.jsx, CssImportLine(name)) <==> r.css != []) &&
        (EndsWith(r.jsx, "export default memo(" + name + ");") <==> o.memo)
    ensures o.formatCode ==> SemicolonsBroken(Generated(processed, d, fileName, o).jsx)
  {
    var content := if o.extractCss then Extracted(d).jsx else processed;
    var css := if o.extractCss then Extracted(d).css else "";
    var body := Body(JsxContent(content, o));
    if o.formatCode {
      ModuleFormatted(css, body, fileName, o);
    } else {
      ModuleCssImport(css, body, fileName, o);
      ModuleMemo(css, body, fileName, o);
    }
  }

  /** The hook's state: the input, the outputs, the file name and the options. */
  class Converter {
    var svgInput: string
    var jsxOutput: string
    var cssOutput: string
    var fileName: string
    var options: ConverterOptions

    /** The initial state: the sample icon, no output, `LayersIcon`, every option on. */
    constructor()
      ensures svgInput == SampleSvg && jsxOutput == "" && cssOutput == "" && fileName == "LayersIcon"
      ensures options == ConverterOptions(true, true, true, true, true, true, true, true)
    {
      svgInput := SampleSvg;
      jsxOutput := "";
      cssOutput := "";
      fileName := "LayersIcon";
      options := ConverterOptions(true, true, true, true, true, true, true, true);
    }

    /** `convertSvgToJsx`: the outputs become the conversion of the current input; nothing else changes. */
    method ConvertSvgToJsx(parse: Parser, optimize: Optimizer)
      modifies this`jsxOutput, this`cssOutput
      ensures ConversionResult(jsxOutput, cssOutput) == Converted(svgInput, fileName, options, parse, optimize)
    {
      var result := Convert(svgInput, fileName, options, parse, optimize);
      Show(result);
    }

    /** `setJsxOutput` and `setCssOutput` with the two halves of `result`. */
    method Show(result: ConversionResult)
      modifies this`jsxOutput, this`cssOutput
      ensures ConversionResult(jsxOutput, cssOutput) == result
    {
      jsxOutput, cssOutput := result.jsx, result.css;
    }
  }

  /** The body of `convertSvgToJsx`, whose `catch` turns every exception into the error output. */
  method Convert(svgInput: string, fileName: string, options: ConverterOptions, parse: Parser, optimize: Optimizer)
    returns (r: ConversionResult)
    ensures r == Converted(svgInput, fileName, options, parse, optimize)
  {
    var processedSvg := svgInput;
    if options.optimizeSvg {
      var optimized := optimize(svgInput);
      if optimized.Threw? {
        return ErrorResult;
      }
      processedSvg := optimized.value;
    }
    var svgDoc := parse(processedSvg);
    if svgDoc.Threw? || !HasMatch(svgDoc.value, Type("svg")) {
      return ErrorResult;
    }
    r := Generate(processedSvg, svgDoc.value, parse, fileName, options);
  }

  /** The part of `convertSvgToJsx` after the `svg` check. */
  method Generate(processedSvg: string, d: Document, parse: Parser, fileName: string, options: ConverterOptions)
    returns (r: ConversionResult)
    requires parse(processedSvg) == Returned(d)
    ensures r == Generated(processedSvg, d, fileName, options)
  {
    var extractedCss := "";
    var jsxContent := processedSvg;
    if options.extractCss {
      var result := ExtractCssFromSvg(processedSvg, parse);
      jsxContent := result.value.jsx;
      extractedCss := result.value.css;
    }
    ghost var content := jsxContent;
    jsxContent := Rewritten(jsxContent);
    if options.cleanupIds {
      jsxContent := ReplaceGlobal(jsxContent, IdAttr, Const(""));
    }
    jsxContent := SvgToJsx.StripComments(jsxContent, options.removeComments);
    if options.quotes {
      jsxContent := FormatQuotes(jsxContent);
    }
    assert jsxContent == JsxContent(content, options);
    var componentName := ComponentName(fileName);
    var jsxComponent := Component(extractedCss, options.typescript, options.memo, componentName, Body(jsxContent));
    var formattedJsx := if options.formatCode then FormatJsxCode(jsxComponent) else jsxComponent;
    r := ConversionResult(formattedJsx, extractedCss);
  }

  const SampleSvg :=
    "<svg width=\"24\" height=\"24\" viewBox=\"0 0 24 24\" fill=\"none\" xmlns=\"http://www.w3.org/2000/svg\">\n" +
    "  <path d=\"M12 2L2 7L12 12L22 7L12 2Z\" stroke=\"currentColor\" stroke-width=\"2\" stroke-linecap=\"round\" stroke-linejoin=\"round\"/>\n" +
    "  <path d=\"M2 17L12 22L22 17\" stroke=\"currentColor\" stroke-width=\"2\" stroke-linecap=\"round\" stroke-linejoin=\"round\"/>\n" +
    "  <path d=\"M2 12L12 17L22 12\" stroke=\"currentColor\" stroke-width=\"2\" stroke-linecap=\"round\" stroke-linejoin=\"round\"/>\n" +
    "</svg>"
}
