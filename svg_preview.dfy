/**
  The preview's `getCleanSvgContent`: the trimmed input without its XML declarations and
  DOCTYPEs, trimmed again, when it then starts with `<svg` in any case; otherwise nothing to
  show, and for a non-blank input the error the preview displays.
*/
module SvgPreview {
  import opened Wrappers
  import opened Text
  import opened Rewrite
  import SvgToJsx

  /** What to render (`null` is `None`) and the `previewError` the call leaves behind. */
  datatype Preview = Preview(content: Option<string>, error: Option<string>)

  const NotSvgError := "Nem érvényes SVG tartalom"

  /** The input with the declarations removed, as the preview would show it. */
  function Stripped(content: string): string
  {
    Trim(SvgToJsx.StripDeclarations(Trim(content)))
  }

  predicate StartsWithSvg(s: string)
  {
    StartsWith(ToLower(s), "<svg")
  }

  /** `getCleanSvgContent(content)`, where `previewError` was reset to `null` just before. */
  function CleanSvgContent(content: string): (r: Preview)
    ensures IsBlank(content) ==> r == Preview(None, None)
    ensures r.content.Some? ==> IsTrimmed(r.content.value) && StartsWithSvg(r.content.value)
    ensures r.content.Some? ==> r.content.value == Stripped(content)
    ensures r.error.Some? <==> !IsBlank(content) && !StartsWithSvg(Stripped(content))
    ensures r.error.Some? ==> r.error.value == NotSvgError && r.content == None
    ensures r.content.None? <==> IsBlank(content) || !StartsWithSvg(Stripped(content))
  {
    TrimEmptyIffBlank(content);
    if Trim(content) == [] then Preview(None, None)
    else
      var cleanContent := Stripped(content);
      if !StartsWithSvg(cleanContent) then Preview(None, Some(NotSvgError))
      else Preview(Some(cleanContent), None)
  }

  /**
    An input with no XML declaration and no DOCTYPE that starts, once trimmed, with `<svg` is
    shown exactly as it is, trimmed.
  */
  lemma PlainSvgShown(content: string)
    requires forall j :: 0 <= j < |Trim(content)| ==> MatchAt(Trim(content), j, SvgToJsx.XmlDeclaration) == 0
    requires forall j :: 0 <= j < |Trim(content)| ==> MatchAt(Trim(content), j, SvgToJsx.Doctype) == 0
    requires StartsWithSvg(Trim(content))
    ensures CleanSvgContent(content) == Preview(Some(Trim(content)), None)
  {
    var t := Trim(content);
    DeletionsKeep(t, SvgToJsx.XmlDeclaration, SvgToJsx.Doctype);
    assert SvgToJsx.StripDeclarations(t) == t;
    TrimOfTrimmed(t);
    TrimEmptyIffBlank(content);
  }

  /** Deleting the matches of two expressions, neither of which matches, changes nothing. */
  lemma DeletionsKeep(t: string, m: Matcher, d: Matcher)
    requires forall j :: 0 <= j < |t| ==> MatchAt(t, j, m) == 0
    requires forall j :: 0 <= j < |t| ==> MatchAt(t, j, d) == 0
    ensures ReplaceGlobal(ReplaceGlobal(t, m, Const("")), d, Const("")) == t
  {
    NoMatchKeeps(t, 0, m, Const(""));
    assert t[0..] == t;
    NoMatchKeeps(t, 0, d, Const(""));
  }
}
