/**
  The basic app's own logic: loading a file (the validator's verdict, the input and the derived
  component name) and the two counters of the conversion details card, which count the matches
  of `/\w+=/g` and `/<path/g` in the input. The app's state is a value; the validator of the
  basic app is not part of this model and enters as its verdict.
*/
module AppPage {
  import opened Text
  import opened Rewrite
  import opened Pages

  datatype AppState = AppState(svgInput: string, fileName: string)

  const DefaultComponentName := "SvgIcon"

  /**
    `handleFileSelect(content, name)`: a rejected input changes nothing; otherwise the input is
    taken over and the component name derived, `SvgIcon` when it comes out empty.
  */
  function HandleFileSelect(st: AppState, content: string, name: string, isValid: bool): (r: AppState)
    ensures !isValid ==> r == st
    ensures isValid ==> r.svgInput == content && r.fileName != [] && NoSeparator(r.fileName)
    ensures isValid && DerivedName(name) != [] ==> r.fileName == DerivedName(name)
    ensures isValid && DerivedName(name) == [] ==> r.fileName == DefaultComponentName
  {
    if !isValid then st
    else
      DefaultPlain();
      FallbackShape(name, DefaultComponentName);
      AppState(content, NameOr(DerivedName(name), DefaultComponentName))
  }

  lemma DefaultPlain()
    ensures NoSeparator(DefaultComponentName)
  {
    var s := DefaultComponentName;
    assert s == ['S', 'v', 'g', 'I', 'c', 'o', 'n'];
    forall i | 0 <= i < |s|
      ensures !IsSeparator(s[i])
    {
      assert IsUpper(s[i]) || IsLower(s[i]);
    }
  }

  // ---------------------------------------------------------------- "Attributes Converted"

  /** The end of the run of word characters that starts at `i`. */
  function WordEnd(s: string, i: nat): (e: nat)
    requires i <= |s|
    ensures i <= e <= |s|
    ensures forall k :: i <= k < e ==> IsWordChar(s[k])
    ensures e < |s| ==> !IsWordChar(s[e])
    decreases |s| - i
  {
    if i < |s| && IsWordChar(s[i]) then WordEnd(s, i + 1) else i
  }

  /**
    `/\w+=/`: the greedy `\w+` takes the whole run of word characters, and giving any back
    leaves a word character where `=` is needed, so a match is a whole run and the `=` after it.
  */
  const WordAssign: Matcher := (s: string, i: nat) =>
    if i < |s| && IsWordChar(s[i]) then
      var e := WordEnd(s, i);
      if e < |s| && s[e] == '=' then e + 1 - i else 0
    else 0

  /** `(svgInput.match(/\w+=/g) || []).length` */
  function AttributesConverted(svgInput: string): nat
  {
    CountFrom(svgInput, 0, WordAssign)
  }

  /** The `=` signs after position `i` that follow a word character. */
  function AssignmentsAfter(s: string, i: nat): nat
    requires i <= |s|
    decreases |s| - i
  {
    if i + 1 >= |s| then 0
    else (if s[i + 1] == '=' && IsWordChar(s[i]) then 1 else 0) + AssignmentsAfter(s, i + 1)
  }

  /** Inside a run of word characters there is no `=`, so no sign is counted before its end. */
  lemma {:induction false} AssignmentsInRun(s: string, i: nat, e: nat)
    requires i <= e <= |s| && e > 0
    requires forall k :: i <= k < e ==> IsWordChar(s[k])
    requires i < e
    ensures AssignmentsAfter(s, i) == AssignmentsAfter(s, e - 1)
    decreases e - i
  {
    if i < e - 1 {
      assert IsWordChar(s[i + 1]);
      AssignmentsInRun(s, i + 1, e);
    }
  }

  /**
    The scan's count from `i` is the number of `=` signs after `i` that directly follow a letter,
    digit or `_`; from 0 this is "Attributes Converted".
  */
  lemma {:induction false} AttributesFrom(s: string, i: nat)
    requires i <= |s|
    ensures CountFrom(s, i, WordAssign) == AssignmentsAfter(s, i)
    decreases |s| - i
  {
    if i < |s| {
      var n := MatchAt(s, i, WordAssign);
      if n > 0 {
        var e := WordEnd(s, i);
        assert WordAssign(s, i) == e + 1 - i;
        AttributesFrom(s, e + 1);
        AssignmentsInRun(s, i, e);
        assert AssignmentsAfter(s, e - 1) == 1 + AssignmentsAfter(s, e);
        assert AssignmentsAfter(s, e) == AssignmentsAfter(s, e + 1);
      } else {
        AttributesFrom(s, i + 1);
        if IsWordChar(s[i]) && i + 1 < |s| && s[i + 1] == '=' {
          assert false;
        }
      }
    }
  }

  // ---------------------------------------------------------------- "Path Elements"

  const PathTag := "<path"

  /** `(svgInput.match(/<path/g) || []).length` */
  function PathElements(svgInput: string): nat
  {
    CountFrom(svgInput, 0, Literal(PathTag))
  }

  /** "Path Elements" counts every place where `<path` occurs: no two occurrences overlap. */
  lemma PathsCounted(svgInput: string)
    ensures PathElements(svgInput) == OccurrencesFrom(svgInput, 0, PathTag)
  {
    assert PathTag[0] == '<' && PathTag[1..] == "path";
    assert PathTag[0] !in PathTag[1..];
    LiteralCount(svgInput, 0, PathTag);
  }
}
