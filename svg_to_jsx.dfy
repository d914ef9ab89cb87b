/**
  The regular-expression converter from SVG markup to the text of a React component: the text is
  trimmed, stripped of its XML declarations, DOCTYPEs and (on request) comments, its hyphenated
  attribute names are camel-cased, the listed empty element tags are closed for JSX, whitespace is
  collapsed, `{...props}` is spread into the first `svg` tag, and the result is placed in a fixed
  component template, which may then be re-indented.
*/
module SvgToJsx {
  import opened Wrappers
  import opened Text
  import opened Rewrite
  import opened AttrRename
  import opened Dom
  import SvgUtils

  datatype ConversionOptions = ConversionOptions(
    removeComments: bool,
    formatCode: bool,
    componentName: string,
    addTypescript: bool)

  // ---------------------------------------------------------------- the expressions

  /** `/<\?xml[^>]*\?>/g`: `<?xml`, then up to the first `>`, which must follow a `?` after the `<?xml`. */
  const XmlDeclaration: Matcher := (s: string, i: nat) =>
    if OccursAt(s, i, "<?xml") then
      var j := FindChar(s, i + 5, '>');
      if j < |s| && i + 6 <= j && s[j - 1] == '?' then j + 1 - i else 0
    else 0

  /** `/<!DOCTYPE[^>]*>/g`: `<!DOCTYPE`, then up to the first `>`. */
  const Doctype: Matcher := (s: string, i: nat) =>
    if OccursAt(s, i, "<!DOCTYPE") then
      var j := FindChar(s, i + 9, '>');
      if j < |s| then j + 1 - i else 0
    else 0

  /** `/<!--[\s\S]*?-->/g`: `<!--`, then up to the first `-->` after it. */
  const Comment: Matcher := (s: string, i: nat) =>
    if OccursAt(s, i, "<!--") then
      var q := Find(s, i + 4, "-->");
      if q < |s| then q + 3 - i else 0
    else 0

  /**
    `new RegExp(`<${tag}([^>]*[^/])>`, 'g')`. With `j` the first `>` after `<tag`, the greedy
    `[^>]*` first takes everything up to `j`, so that `[^/]` is that `>` and the match ends at a
    second `>` right after it; failing that it gives back one character, which must not be `/`.
    Nothing has to follow the tag name, so `line` also matches `<linearGradient …>`.
  */
  function SelfClosable(tag: string): Matcher
  {
    (s: string, i: nat) =>
      if OccursAt(s, i, "<" + tag) then
        var p := i + 1 + |tag|;
        var j := FindChar(s, p, '>');
        if j + 1 < |s| && s[j + 1] == '>' then j + 2 - i
        else if p < j < |s| && s[j - 1] != '/' then j + 1 - i
        else 0
      else 0
  }

  /** `<${tag}$1 />`: the match is `<tag`, the group `$1` and a closing `>`, which becomes ` />`. */
  const SelfClose: string -> string := (m: string) => (if m == [] then [] else m[..|m| - 1]) + " />"

  /** `/<svg([^>]*)>/`: `<svg`, then up to the first `>`. */
  const SvgOpenTag: Matcher := (s: string, i: nat) =>
    if OccursAt(s, i, "<svg") then
      var j := FindChar(s, i + 4, '>');
      if j < |s| then j + 1 - i else 0
    else 0

  /** `<svg$1 {...props}>` */
  const SpreadProps: string -> string := (m: string) => (if m == [] then [] else m[..|m| - 1]) + " {...props}>"

  /** `/>\s*</g`: a `>`, the whitespace after it, and a `<` right after that. */
  const TagGap: Matcher := (s: string, i: nat) =>
    if i < |s| && s[i] == '>' then
      var r := SkipSpaces(s, i + 1);
      if r < |s| && s[r] == '<' then r + 1 - i else 0
    else 0

  /** `/  \s+/g`: two spaces and the whole run of whitespace after them, which must not be empty. */
  const LongIndent: Matcher := (s: string, i: nat) =>
    if i + 2 < |s| && s[i] == ' ' && s[i + 1] == ' ' && IsSpace(s[i + 2]) then SkipSpaces(s, i + 2) - i else 0

  // ---------------------------------------------------------------- the tables

  /** `attributeMap`, in the order of its entries. */
  const AttributeMap: seq<(string, string)> := [
    ("stroke-width", "strokeWidth"),
    ("stroke-linecap", "strokeLinecap"),
    ("stroke-linejoin", "strokeLinejoin"),
    ("stroke-dasharray", "strokeDasharray"),
    ("stroke-dashoffset", "strokeDashoffset"),
    ("fill-rule", "fillRule"),
    ("clip-rule", "clipRule"),
    ("font-family", "fontFamily"),
    ("font-size", "fontSize"),
    ("font-weight", "fontWeight"),
    ("text-anchor", "textAnchor"),
    ("dominant-baseline", "dominantBaseline"),
    ("alignment-baseline", "alignmentBaseline"),
    ("baseline-shift", "baselineShift"),
    ("stop-color", "stopColor"),
    ("stop-opacity", "stopOpacity"),
    ("marker-start", "markerStart"),
    ("marker-mid", "markerMid"),
    ("marker-end", "markerEnd")
  ]

  /** Every rename the converter makes: the map's entries, then `class` to `className`. */
  const Renames: seq<(string, string)> := AttributeMap + [("class", "className")]

  const SelfClosingTags: seq<string> := ["path", "rect", "circle", "ellipse", "line", "polyline", "polygon", "stop", "use"]

  const TsImports := "import React from 'react';\nimport { SVGProps } from 'react';\n\n"
  const JsImports := "import React from 'react';\n\n"
  const TsPropsType := ": React.FC<SVGProps<SVGSVGElement>>"

  // ---------------------------------------------------------------- the stages

  function StripDeclarations(s: string): string
  {
    ReplaceGlobal(ReplaceGlobal(s, XmlDeclaration, Const("")), Doctype, Const(""))
  }

  function StripComments(s: string, removeComments: bool): string
  {
    if removeComments then ReplaceGlobal(s, Comment, Const("")) else s
  }

  function CloseTag(s: string, tag: string): string
  {
    ReplaceGlobal(s, SelfClosable(tag), SelfClose)
  }

  /** The self-closing rewrites of `tags`, applied one after the other in order. */
  function CloseAll(s: string, tags: seq<string>): string
  {
    if tags == [] then s else CloseTag(CloseAll(s, tags[..|tags| - 1]), tags[|tags| - 1])
  }

  /** `s.replace(/\s+/g, ' ').trim()` */
  function CollapseWhitespace(s: string): string
  {
    Trim(CollapseSpaces(s))
  }

  function AddProps(s: string): string
  {
    ReplaceFirst(s, SvgOpenTag, SpreadProps)
  }

  /** The SVG text as it goes into the template. */
  function ProcessSvg(svgContent: string, removeComments: bool): string
  {
    var stripped := StripComments(StripDeclarations(Trim(svgContent)), removeComments);
    AddProps(CollapseWhitespace(CloseAll(RenameAll(stripped, Renames), SelfClosingTags)))
  }

  function Imports(addTypescript: bool): string
  {
    if addTypescript then TsImports else JsImports
  }

  function PropsType(addTypescript: bool): string
  {
    if addTypescript then TsPropsType else ""
  }

  function Component(options: ConversionOptions, svg: string): string
  {
    Imports(options.addTypescript) + "const " + options.componentName + PropsType(options.addTypescript)
      + " = (props) => (\n  " + svg + "\n);\n\nexport default " + options.componentName + ";"
  }

  function TrimLines(lines: seq<string>): (r: seq<string>)
    ensures |r| == |lines| && forall k :: 0 <= k < |r| ==> r[k] == Trim(lines[k])
  {
    seq(|lines|, k requires 0 <= k < |lines| => Trim(lines[k]))
  }

  /** The `formatCode` step: every line trimmed, then the gaps between tags and the long indents rewritten. */
  function FormatCode(c: string): string
  {
    var lines := Join(TrimLines(Split(c, '\n')), "\n");
    ReplaceGlobal(ReplaceGlobal(lines, TagGap, Const(">\n  <")), LongIndent, Const("  "))
  }

  function SvgToJsxText(svgContent: string, options: ConversionOptions): string
  {
    var component := Component(options, ProcessSvg(svgContent, options.removeComments));
    if options.formatCode then FormatCode(component) else component
  }

  // ---------------------------------------------------------------- declarations and DOCTYPEs

  /**
    The XML declarations of a text do not interleave: one that starts inside another ends at
    the same `>`.
  */
  lemma XmlDeclarationsNest(s: string)
    ensures NestedClosed(s, XmlDeclaration)
  {
    forall i, j | 0 <= i < j < |s| && j < i + MatchAt(s, i, XmlDeclaration)
      ensures j + MatchAt(s, j, XmlDeclaration) <= i + MatchAt(s, i, XmlDeclaration)
    {
      if MatchAt(s, j, XmlDeclaration) > 0 {
        XmlDeclarationInside(s, i, j);
      }
    }
  }

  lemma XmlDeclarationInside(s: string, i: nat, j: nat)
    requires i < j && MatchAt(s, i, XmlDeclaration) > 0 && MatchAt(s, j, XmlDeclaration) > 0
    requires j < i + MatchAt(s, i, XmlDeclaration)
    ensures j + MatchAt(s, j, XmlDeclaration) == i + MatchAt(s, i, XmlDeclaration)
  {
    var e := FindChar(s, i + 5, '>');
    assert XmlDeclaration(s, i) == e + 1 - i;
    assert OccursAt(s, j, "<?xml");
    CharPastPattern(s, j, "<?xml", '>', e);
    FindCharLater(s, i + 5, j + 5, '>');
  }

  /** Removing the declarations keeps exactly the characters outside every declaration of the text, in order. */
  lemma DeclarationsRemoved(s: string)
    ensures ReplaceGlobal(s, XmlDeclaration, Const("")) == Uncovered(s, 0, XmlDeclaration)
  {
    XmlDeclarationsNest(s);
    RemoveMatches(s, XmlDeclaration);
  }

  lemma DoctypesNest(s: string)
    ensures NestedClosed(s, Doctype)
  {
    forall i, j | 0 <= i < j < |s| && j < i + MatchAt(s, i, Doctype)
      ensures j + MatchAt(s, j, Doctype) <= i + MatchAt(s, i, Doctype)
    {
      if MatchAt(s, j, Doctype) > 0 {
        DoctypeInside(s, i, j);
      }
    }
  }

  lemma DoctypeInside(s: string, i: nat, j: nat)
    requires i < j && MatchAt(s, i, Doctype) > 0 && MatchAt(s, j, Doctype) > 0
    requires j < i + MatchAt(s, i, Doctype)
    ensures j + MatchAt(s, j, Doctype) == i + MatchAt(s, i, Doctype)
  {
    var e := FindChar(s, i + 9, '>');
    assert Doctype(s, i) == e + 1 - i;
    assert OccursAt(s, j, "<!DOCTYPE");
    CharPastPattern(s, j, "<!DOCTYPE", '>', e);
    FindCharLater(s, i + 9, j + 9, '>');
  }

  /** Removing the DOCTYPEs keeps exactly the characters outside every DOCTYPE of the text, in order. */
  lemma DoctypesRemoved(s: string)
    ensures ReplaceGlobal(s, Doctype, Const("")) == Uncovered(s, 0, Doctype)
  {
    DoctypesNest(s);
    RemoveMatches(s, Doctype);
  }

  // ---------------------------------------------------------------- comments

  /** Without `removeComments` the comment stage changes nothing; with it, a text without `<!--` is kept too. */
  lemma CommentsKeptUnlessAsked(s: string, removeComments: bool)
    requires !removeComments || forall j :: 0 <= j < |s| ==> !OccursAt(s, j, "<!--")
    ensures StripComments(s, removeComments) == s
  {
    if removeComments {
      forall j | 0 <= j < |s| ensures MatchAt(s, j, Comment) == 0 {
        assert !OccursAt(s, j, "<!--");
      }
      NoMatchKeeps(s, 0, Comment, Const(""));
    }
  }

  /**
    Where no comment starts inside another one, removing comments keeps exactly the characters
    outside every comment, in order. (Comments may interleave: in `<!--x<!-->-->` the second
    opener ends the first comment's closer.)
  */
  lemma CommentsRemoved(s: string)
    requires NestedClosed(s, Comment)
    ensures StripComments(s, true) == Uncovered(s, 0, Comment)
  {
    RemoveMatches(s, Comment);
  }

  // ---------------------------------------------------------------- attribute names

  /** `p[i..]` holds lower-case letters and hyphens only (a form the verifier evaluates on literals). */
  predicate HyphenatedFrom(p: string, i: nat)
    decreases |p| - i
  {
    i >= |p| || ((IsLower(p[i]) || p[i] == '-') && HyphenatedFrom(p, i + 1))
  }

  /** `p[i..]` holds word characters only. */
  predicate WordCharsFrom(p: string, i: nat)
    decreases |p| - i
  {
    i >= |p| || (IsWordChar(p[i]) && WordCharsFrom(p, i + 1))
  }

  /** The entry `(name, to)` passes the checks, with an upper-case letter of `to` at `hump`. */
  predicate Checked(name: string, to: string, hump: nat)
  {
    name != [] && IsLower(name[0]) && HyphenatedFrom(name, 0) && WordCharsFrom(to, 0) && hump < |to| && IsUpper(to[hump])
  }

  lemma {:induction false} HyphenatedFromAll(p: string, i: nat)
    requires HyphenatedFrom(p, i)
    ensures forall k :: i <= k < |p| ==> IsLower(p[k]) || p[k] == '-'
    decreases |p| - i
  {
    if i < |p| {
      HyphenatedFromAll(p, i + 1);
    }
  }

  lemma {:induction false} WordCharsFromAll(p: string, i: nat)
    requires WordCharsFrom(p, i)
    ensures forall k :: i <= k < |p| ==> IsWordChar(p[k])
    decreases |p| - i
  {
    if i < |p| {
      WordCharsFromAll(p, i + 1);
    }
  }

  lemma CheckedWellFormed(name: string, to: string, hump: nat)
    requires Checked(name, to, hump)
    ensures IsHyphenated(name) && IsCamel(to)
  {
    HyphenatedFromAll(name, 0);
    WordCharsFromAll(to, 0);
  }

  /** The position of an upper-case letter in each React name of `Renames`. */
  const Humps: seq<nat> := [6, 6, 6, 6, 6, 4, 4, 4, 4, 4, 4, 8, 9, 8, 4, 4, 6, 6, 6, 5]

  lemma RenamesWellFormed()
    ensures WellFormed(Renames)
  {
    forall k | 0 <= k < |Renames| ensures IsHyphenated(Renames[k].0) && IsCamel(Renames[k].1) {
      EntryChecked(k);
      CheckedWellFormed(Renames[k].0, Renames[k].1, Humps[k]);
    }
  }

  lemma EntryChecked(k: nat)
    requires k < |Renames|
    ensures Checked(Renames[k].0, Renames[k].1, Humps[k])
  {
    if k == 0 {
      Checked0();
    } else if k == 1 {
      Checked1();
    } else if k == 2 {
      Checked2();
    } else if k == 3 {
      Checked3();
    } else if k == 4 {
      Checked4();
    } else if k == 5 {
      Checked5();
    } else if k == 6 {
      Checked6();
    } else if k == 7 {
      Checked7();
    } else if k == 8 {
      Checked8();
    } else if k == 9 {
      Checked9();
    } else if k == 10 {
      Checked10();
    } else if k == 11 {
      Checked11();
    } else if k == 12 {
      Checked12();
    } else if k == 13 {
      Checked13();
    } else if k == 14 {
      Checked14();
    } else if k == 15 {
      Checked15();
    } else if k == 16 {
      Checked16();
    } else if k == 17 {
      Checked17();
    } else if k == 18 {
      Checked18();
    } else {
      Checked19();
    }
  }

  lemma Checked0()
    ensures Checked(Renames[0].0, Renames[0].1, Humps[0])
  {
    assert Renames[0] == ("stroke-width", "strokeWidth") && Humps[0] == 6;
    assert HyphenatedFrom("stroke-width", 8);
    assert HyphenatedFrom("stroke-width", 4);
    assert WordCharsFrom("strokeWidth", 8);
    assert WordCharsFrom("strokeWidth", 4);
  }

  lemma Checked1()
    ensures Checked(Renames[1].0, Renames[1].1, Humps[1])
  {
    assert Renames[1] == ("stroke-linecap", "strokeLinecap") && Humps[1] == 6;
    assert HyphenatedFrom("stroke-linecap", 12);
    assert HyphenatedFrom("stroke-linecap", 8);
    assert HyphenatedFrom("stroke-linecap", 4);
    assert WordCharsFrom("strokeLinecap", 12);
    assert WordCharsFrom("strokeLinecap", 8);
    assert WordCharsFrom("strokeLinecap", 4);
  }

  lemma Checked2()
    ensures Checked(Renames[2].0, Renames[2].1, Humps[2])
  {
    assert Renames[2] == ("stroke-linejoin", "strokeLinejoin") && Humps[2] == 6;
    assert HyphenatedFrom("stroke-linejoin", 12);
    assert HyphenatedFrom("stroke-linejoin", 8);
    assert HyphenatedFrom("stroke-linejoin", 4);
    assert WordCharsFrom("strokeLinejoin", 12);
    assert WordCharsFrom("strokeLinejoin", 8);
    assert WordCharsFrom("strokeLinejoin", 4);
  }

  lemma Checked3()
    ensures Checked(Renames[3].0, Renames[3].1, Humps[3])
  {
    assert Renames[3] == ("stroke-dasharray", "strokeDasharray") && Humps[3] == 6;
    assert HyphenatedFrom("stroke-dasharray", 12);
    assert HyphenatedFrom("stroke-dasharray", 8);
    assert HyphenatedFrom("stroke-dasharray", 4);
    assert WordCharsFrom("strokeDasharray", 12);
    assert WordCharsFrom("strokeDasharray", 8);
    assert WordCharsFrom("strokeDasharray", 4);
  }

  lemma Checked4()
    ensures Checked(Renames[4].0, Renames[4].1, Humps[4])
  {
    assert Renames[4] == ("stroke-dashoffset", "strokeDashoffset") && Humps[4] == 6;
    assert HyphenatedFrom("stroke-dashoffset", 16);
    assert HyphenatedFrom("stroke-dashoffset", 12);
    assert HyphenatedFrom("stroke-dashoffset", 8);
    assert HyphenatedFrom("stroke-dashoffset", 4);
    assert WordCharsFrom("strokeDashoffset", 12);
    assert WordCharsFrom("strokeDashoffset", 8);
    assert WordCharsFrom("strokeDashoffset", 4);
  }

  lemma Checked5()
    ensures Checked(Renames[5].0, Renames[5].1, Humps[5])
  {
    assert Renames[5] == ("fill-rule", "fillRule") && Humps[5] == 4;
    assert HyphenatedFrom("fill-rule", 8);
    assert HyphenatedFrom("fill-rule", 4);
    assert WordCharsFrom("fillRule", 4);
  }

  lemma Checked6()
    ensures Checked(Renames[6].0, Renames[6].1, Humps[6])
  {
    assert Renames[6] == ("clip-rule", "clipRule") && Humps[6] == 4;
    assert HyphenatedFrom("clip-rule", 8);
    assert HyphenatedFrom("clip-rule", 4);
    assert WordCharsFrom("clipRule", 4);
  }

  lemma Checked7()
    ensures Checked(Renames[7].0, Renames[7].1, Humps[7])
  {
    assert Renames[7] == ("font-family", "fontFamily") && Humps[7] == 4;
    assert HyphenatedFrom("font-family", 8);
    assert HyphenatedFrom("font-family", 4);
    assert WordCharsFrom("fontFamily", 8);
    assert WordCharsFrom("fontFamily", 4);
  }

  lemma Checked8()
    ensures Checked(Renames[8].0, Renames[8].1, Humps[8])
  {
    assert Renames[8] == ("font-size", "fontSize") && Humps[8] == 4;
    assert HyphenatedFrom("font-size", 8);
    assert HyphenatedFrom("font-size", 4);
    assert WordCharsFrom("fontSize", 4);
  }

  lemma Checked9()
    ensures Checked(Renames[9].0, Renames[9].1, Humps[9])
  {
    assert Renames[9] == ("font-weight", "fontWeight") && Humps[9] == 4;
    assert HyphenatedFrom("font-weight", 8);
    assert HyphenatedFrom("font-weight", 4);
    assert WordCharsFrom("fontWeight", 8);
    assert WordCharsFrom("fontWeight", 4);
  }

  lemma Checked10()
    ensures Checked(Renames[10].0, Renames[10].1, Humps[10])
  {
    assert Renames[10] == ("text-anchor", "textAnchor") && Humps[10] == 4;
    assert HyphenatedFrom("text-anchor", 8);
    assert HyphenatedFrom("text-anchor", 4);
    assert WordCharsFrom("textAnchor", 8);
    assert WordCharsFrom("textAnchor", 4);
  }

  lemma Checked11()
    ensures Checked(Renames[11].0, Renames[11].1, Humps[11])
  {
    assert Renames[11] == ("dominant-baseline", "dominantBaseline") && Humps[11] == 8;
    assert HyphenatedFrom("dominant-baseline", 16);
    assert HyphenatedFrom("dominant-baseline", 12);
    assert HyphenatedFrom("dominant-baseline", 8);
    assert HyphenatedFrom("dominant-baseline", 4);
    assert WordCharsFrom("dominantBaseline", 12);
    assert WordCharsFrom("dominantBaseline", 8);
    assert WordCharsFrom("dominantBaseline", 4);
  }

  lemma Checked12()
    ensures Checked(Renames[12].0, Renames[12].1, Humps[12])
  {
    assert Renames[12] == ("alignment-baseline", "alignmentBaseline") && Humps[12] == 9;
    assert HyphenatedFrom("alignment-baseline", 16);
    assert HyphenatedFrom("alignment-baseline", 12);
    assert HyphenatedFrom("alignment-baseline", 8);
    assert HyphenatedFrom("alignment-baseline", 4);
    assert WordCharsFrom("alignmentBaseline", 16);
    assert WordCharsFrom("alignmentBaseline", 12);
    assert WordCharsFrom("alignmentBaseline", 8);
    assert WordCharsFrom("alignmentBaseline", 4);
  }

  lemma Checked13()
    ensures Checked(Renames[13].0, Renames[13].1, Humps[13])
  {
    assert Renames[13] == ("baseline-shift", "baselineShift") && Humps[13] == 8;
    assert HyphenatedFrom("baseline-shift", 12);
    assert HyphenatedFrom("baseline-shift", 8);
    assert HyphenatedFrom("baseline-shift", 4);
    assert WordCharsFrom("baselineShift", 12);
    assert WordCharsFrom("baselineShift", 8);
    assert WordCharsFrom("baselineShift", 4);
  }

  lemma Checked14()
    ensures Checked(Renames[14].0, Renames[14].1, Humps[14])
  {
    assert Renames[14] == ("stop-color", "stopColor") && Humps[14] == 4;
    assert HyphenatedFrom("stop-color", 8);
    assert HyphenatedFrom("stop-color", 4);
    assert WordCharsFrom("stopColor", 8);
    assert WordCharsFrom("stopColor", 4);
  }

  lemma Checked15()
    ensures Checked(Renames[15].0, Renames[15].1, Humps[15])
  {
    assert Renames[15] == ("stop-opacity", "stopOpacity") && Humps[15] == 4;
    assert HyphenatedFrom("stop-opacity", 8);
    assert HyphenatedFrom("stop-opacity", 4);
    assert WordCharsFrom("stopOpacity", 8);
    assert WordCharsFrom("stopOpacity", 4);
  }

  lemma Checked16()
    ensures Checked(Renames[16].0, Renames[16].1, Humps[16])
  {
    assert Renames[16] == ("marker-start", "markerStart") && Humps[16] == 6;
    assert HyphenatedFrom("marker-start", 8);
    assert HyphenatedFrom("marker-start", 4);
    assert WordCharsFrom("markerStart", 8);
    assert WordCharsFrom("markerStart", 4);
  }

  lemma Checked17()
    ensures Checked(Renames[17].0, Renames[17].1, Humps[17])
  {
    assert Renames[17] == ("marker-mid", "markerMid") && Humps[17] == 6;
    assert HyphenatedFrom("marker-mid", 8);
    assert HyphenatedFrom("marker-mid", 4);
    assert WordCharsFrom("markerMid", 8);
    assert WordCharsFrom("markerMid", 4);
  }

  lemma Checked18()
    ensures Checked(Renames[18].0, Renames[18].1, Humps[18])
  {
    assert Renames[18] == ("marker-end", "markerEnd") && Humps[18] == 6;
    assert HyphenatedFrom("marker-end", 8);
    assert HyphenatedFrom("marker-end", 4);
    assert WordCharsFrom("markerEnd", 8);
    assert WordCharsFrom("markerEnd", 4);
  }

  lemma Checked19()
    ensures Checked(Renames[19].0, Renames[19].1, Humps[19])
  {
    assert Renames[19] == ("class", "className") && Humps[19] == 5;
    assert HyphenatedFrom("class", 4);
    assert WordCharsFrom("className", 8);
    assert WordCharsFrom("className", 4);
  }

  /**
    After the renames, no mapped hyphenated name and no `class` is left followed by `=` at a word
    boundary: each rename replaces all of its occurrences and creates none of the others.
  */
  lemma RenamesLeaveNone(s: string)
    ensures forall k :: 0 <= k < |Renames| ==> NoneLeft(RenameAll(s, Renames), Renames[k].0)
  {
    RenamesWellFormed();
    RenameAllLeavesNone(s, Renames);
  }

  /** The renames of the map followed by that of `class` are the series `Renames`. */
  lemma RenamesInOrder(s: string)
    ensures RenameAll(s, Renames) == Rename(RenameAll(s, AttributeMap), "class", "className")
  {
    RenameAllSnoc(s, AttributeMap, "class", "className");
  }

  // ---------------------------------------------------------------- self-closing tags

  /**
    An opening tag of a listed name (or of any name it is a prefix of) whose last character before
    the first `>` is not `/`, and that is not followed by another `>`, is closed with ` />`.
  */
  lemma OpenTagCloses(s: string, i: nat, tag: string)
    requires OccursAt(s, i, "<" + tag)
    requires var j := FindChar(s, i + 1 + |tag|, '>');
      i + 1 + |tag| < j < |s| && s[j - 1] != '/' && !(j + 1 < |s| && s[j + 1] == '>')
    ensures var j := FindChar(s, i + 1 + |tag|, '>');
      MatchAt(s, i, SelfClosable(tag)) == j + 1 - i && SelfClose(s[i..j + 1]) == s[i..j] + " />"
  {
    var j := FindChar(s, i + 1 + |tag|, '>');
    assert SelfClosable(tag)(s, i) == j + 1 - i;
    assert s[i..j + 1][..j - i] == s[i..j];
  }

  /** Tag names match as prefixes: the rule for `line` also closes `<linearGradient>`. */
  lemma LineClosesLinearGradient()
    ensures MatchAt("<linearGradient>", 0, SelfClosable("line")) == 16
  {
    var s := "<linearGradient>";
    assert OccursAt(s, 0, "<line");
    assert FindChar(s, 12, '>') == 15;
    assert FindChar(s, 8, '>') == 15;
    assert FindChar(s, 5, '>') == 15;
  }

  /** A tag that already ends in `/>` is left as it is. */
  lemma ClosedTagKept(s: string, i: nat, tag: string)
    requires OccursAt(s, i, "<" + tag)
    requires var j := FindChar(s, i + 1 + |tag|, '>');
      j < |s| && s[j - 1] == '/' && !(j + 1 < |s| && s[j + 1] == '>')
    ensures MatchAt(s, i, SelfClosable(tag)) == 0
  {
  }

  /** A bare `<tag>` without attributes is left as it is (the group needs one character before `>`). */
  lemma BareTagKept(s: string, i: nat, tag: string)
    requires OccursAt(s, i, "<" + tag + ">") && !(i + |tag| + 2 < |s| && s[i + |tag| + 2] == '>')
    ensures MatchAt(s, i, SelfClosable(tag)) == 0
  {
    var p := i + 1 + |tag|;
    assert s[p] == (("<" + tag) + ">")[p - i] == '>';
    assert OccursAt(s, i, "<" + tag) by {
      assert s[i..p] == s[i..i + |tag| + 2][..p - i];
    }
  }

  // ---------------------------------------------------------------- whitespace

  /** After the whitespace stage the text has no two whitespace characters in a row and is trimmed. */
  lemma WhitespaceCollapsed(s: string)
    ensures NoSpaceRun(CollapseWhitespace(s)) && IsTrimmed(CollapseWhitespace(s))
  {
    NoSpaceRunTrim(CollapseSpaces(s));
  }

  // ---------------------------------------------------------------- props

  /**
    ` {...props}` is inserted before the `>` that closes the first `<svg` tag and nowhere else:
    the text before that `>` and everything after it, later `svg` tags included, is kept.
  */
  lemma PropsOnFirstSvg(s: string, k: nat)
    requires k < |s| && OccursAt(s, k, "<svg") && FindChar(s, k + 4, '>') < |s|
    requires forall j :: 0 <= j < k ==> MatchAt(s, j, SvgOpenTag) == 0
    ensures var e := FindChar(s, k + 4, '>');
      AddProps(s) == s[..e] + " {...props}>" + s[e + 1..]
  {
    var e := FindChar(s, k + 4, '>');
    var n := e + 1 - k;
    assert SvgOpenTag(s, k) == n;
    FirstMatchIs(s, 0, k, SvgOpenTag);
    ReplaceFirstAt(s, SvgOpenTag, SpreadProps, k, n);
    PropsText(s, k, n, e, AddProps(s));
  }

  lemma PropsText(s: string, k: nat, n: nat, e: nat, r: string)
    requires k < e < |s| && e + 1 == k + n
    requires r == s[..k] + SpreadProps(s[k..k + n]) + s[k + n..]
    ensures r == s[..e] + " {...props}>" + s[e + 1..]
  {
    SpreadInto(s[k..k + n], s[k..e]);
    Regroup(s[..k], s[k..e], " {...props}>", s[e + 1..]);
    assert s[..k] + s[k..e] == s[..e];
  }

  lemma SpreadInto(m: string, front: string)
    requires m != [] && front == m[..|m| - 1]
    ensures SpreadProps(m) == front + " {...props}>"
  {
  }

  lemma Regroup(x: string, y: string, z: string, w: string)
    ensures x + (y + z) + w == (x + y) + z + w
  {
  }

  /** Without an `<svg …>` tag the props stage changes nothing. */
  lemma NoSvgTagKept(s: string)
    requires forall j :: 0 <= j < |s| ==> MatchAt(s, j, SvgOpenTag) == 0
    ensures AddProps(s) == s
  {
    ReplaceFirstNone(s, SvgOpenTag, SpreadProps);
  }

  // ---------------------------------------------------------------- the template

  /**
    The component starts with the TypeScript imports exactly when they were asked for, declares
    the component under the given name as it is, and exports that same name at its end.
  */
  lemma TemplateShape(options: ConversionOptions, svg: string)
    ensures var c := Component(options, svg);
      (StartsWith(c, TsImports) <==> options.addTypescript) &&
      OccursAt(c, |Imports(options.addTypescript)| + 6, options.componentName) &&
      EndsWith(c, "\n);\n\nexport default " + options.componentName + ";")
  {
    TemplateParts(Imports(options.addTypescript), "const ", options.componentName, PropsType(options.addTypescript),
      " = (props) => (\n  ", svg, "\n);\n\nexport default ", ";");
    ImportsIff(options.addTypescript, Component(options, svg)[|Imports(options.addTypescript)|..]);
  }

  /** Where the pieces of a template are, with the name twice. */
  lemma TemplateParts(imports: string, d: string, name: string, p: string, a: string, svg: string, e: string, z: string)
    ensures var c := imports + d + name + p + a + svg + e + name + z;
      c == imports + c[|imports|..] && OccursAt(c, |imports| + |d|, name) && EndsWith(c, e + name + z)
  {
    var c := imports + d + name + p + a + svg + e + name + z;
    var k := |imports| + |d|;
    assert c == (imports + d) + name + (p + a + svg + e + name + z);
    assert c[k..k + |name|] == name;
    assert c == (imports + d + name + p + a + svg) + (e + name + z);
  }

  /** Text after the JavaScript imports never starts with the TypeScript ones. */
  lemma ImportsIff(addTypescript: bool, rest: string)
    ensures StartsWith(Imports(addTypescript) + rest, TsImports) <==> addTypescript
  {
    var c := Imports(addTypescript) + rest;
    if addTypescript {
      assert c[..|TsImports|] == TsImports;
    } else {
      assert c[27] == JsImports[27] == '\n';
      assert TsImports[27] == 'i';
    }
  }

  // ---------------------------------------------------------------- formatting

  /** Where every line is already trimmed, the first formatting step gives the text back. */
  lemma TrimmedLinesKept(c: string)
    requires forall k :: 0 <= k < |Split(c, '\n')| ==> IsTrimmed(Split(c, '\n')[k])
    ensures Join(TrimLines(Split(c, '\n')), "\n") == c
  {
    var lines := Split(c, '\n');
    forall k | 0 <= k < |lines| ensures TrimLines(lines)[k] == lines[k] {
      TrimOfTrimmed(lines[k]);
    }
    assert TrimLines(lines) == lines;
    JoinSplit(c, '\n');
  }

  // ---------------------------------------------------------------- the converter

  /** `svgToJsx`: the stages applied in order to `processedSvg`, then the template and the formatting. */
  method Convert(svgContent: string, options: ConversionOptions) returns (component: string)
    ensures component == SvgToJsxText(svgContent, options)
  {
    var processedSvg := Trim(svgContent);
    processedSvg := ReplaceGlobal(processedSvg, XmlDeclaration, Const(""));
    processedSvg := ReplaceGlobal(processedSvg, Doctype, Const(""));
    if options.removeComments {
      processedSvg := ReplaceGlobal(processedSvg, Comment, Const(""));
    }
    ghost var stripped := processedSvg;
    processedSvg := RenameAttributes(processedSvg, AttributeMap);
    processedSvg := Rename(processedSvg, "class", "className");
    RenamesInOrder(stripped);
    processedSvg := CloseTags(processedSvg, SelfClosingTags);
    processedSvg := Trim(CollapseSpaces(processedSvg));
    processedSvg := ReplaceFirst(processedSvg, SvgOpenTag, SpreadProps);
    component := Component(options, processedSvg);
    if options.formatCode {
      component := FormatCode(component);
    }
  }

  /** The `forEach` over the attribute map: one rename per entry, in order. */
  method RenameAttributes(s: string, pairs: seq<(string, string)>) returns (r: string)
    ensures r == RenameAll(s, pairs)
  {
    r := s;
    var j := 0;
    while j < |pairs|
      invariant j <= |pairs|
      invariant r == RenameAll(s, pairs[..j])
    {
      var (hyphenated, camelCase) := pairs[j];
      assert pairs[..j + 1] == pairs[..j] + [(hyphenated, camelCase)];
      RenameAllSnoc(s, pairs[..j], hyphenated, camelCase);
      r := Rename(r, hyphenated, camelCase);
      j := j + 1;
    }
    assert pairs[..j] == pairs;
  }

  /** The `forEach` over the self-closing tags: one rewrite per tag, in order. */
  method CloseTags(s: string, tags: seq<string>) returns (r: string)
    ensures r == CloseAll(s, tags)
  {
    r := s;
    var j := 0;
    while j < |tags|
      invariant j <= |tags|
      invariant r == CloseAll(s, tags[..j])
    {
      assert tags[..j + 1][..j] == tags[..j];
      r := CloseTag(r, tags[j]);
      j := j + 1;
    }
    assert tags[..j] == tags;
  }

  /**
    Without formatting, the converter's output is the template around the processed SVG: the
    TypeScript imports exactly when asked for, and the component name as given, twice.
  */
  lemma ConvertedShape(svgContent: string, options: ConversionOptions)
    requires !options.formatCode
    ensures var c := SvgToJsxText(svgContent, options);
      (StartsWith(c, TsImports) <==> options.addTypescript) &&
      OccursAt(c, |Imports(options.addTypescript)| + 6, options.componentName) &&
      EndsWith(c, "\n);\n\nexport default " + options.componentName + ";")
  {
    TemplateShape(options, ProcessSvg(svgContent, options.removeComments));
  }

  // ---------------------------------------------------------------- validateSvg

  const InvalidFormatPrefix := "Invalid SVG format: "
  const NoSvgError := "No SVG element found in the content"

  /** `validateSvg` of the converter: the parser's own error, then the presence of any `svg` element. */
  function ValidateSvg(content: string, parse: Parser): (r: SvgUtils.ValidationResult)
    ensures r.isValid <==> r.error.None?
  {
    match parse(content)
    case Threw(m) => SvgUtils.Invalid(SvgUtils.ParseFailurePrefix + m)
    case Returned(d) =>
      var errors := QuerySelectorAll(d, Type("parsererror"));
      if errors != [] then SvgUtils.Invalid(InvalidFormatPrefix + TextContent(errors[0]))
      else if !HasMatch(d, Type("svg")) then SvgUtils.Invalid(NoSvgError)
      else SvgUtils.ValidationResult(true, None)
  }

  /** Content is valid exactly when it parses, without a `parsererror` element and with an `svg` element somewhere. */
  lemma ValidIff(content: string, parse: Parser)
    ensures ValidateSvg(content, parse).isValid <==>
      parse(content).Returned? && !HasMatch(parse(content).value, Type("parsererror")) &&
      HasMatch(parse(content).value, Type("svg"))
  {
  }

  /** The messages of the three ways to fail. */
  lemma InvalidMessages(content: string, parse: Parser)
    ensures parse(content).Threw? ==>
      ValidateSvg(content, parse).error == Some(SvgUtils.ParseFailurePrefix + parse(content).message)
    ensures parse(content).Returned? && HasMatch(parse(content).value, Type("parsererror")) ==>
      ValidateSvg(content, parse).error ==
        Some(InvalidFormatPrefix + TextContent(QuerySelectorAll(parse(content).value, Type("parsererror"))[0]))
    ensures (parse(content).Returned? && !HasMatch(parse(content).value, Type("parsererror")) &&
      !HasMatch(parse(content).value, Type("svg"))) ==> ValidateSvg(content, parse).error == Some(NoSvgError)
  {
  }
}
