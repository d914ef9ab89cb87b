/**
  What the two pages (the advanced page and the basic app) do alike: the component name they
  derive from an uploaded file's name, and the guard in front of a conversion.

  The name: a trailing `.svg` is cut off, the rest is split on runs of `-`, `_` and whitespace,
  every piece is capitalised (first character upper case, the rest lower case) and the pieces
  are joined with nothing between them. Case mapping is ASCII only.
*/
module Pages {
  import opened Text

  /** `if (!svgInput.trim()) return;` in front of `convertSvgToJsx()`. */
  predicate ConvertRequested(svgInput: string)
  {
    Trim(svgInput) != []
  }

  /** A conversion is asked for exactly when the input is not all whitespace. */
  lemma ConvertRequestedIff(svgInput: string)
    ensures ConvertRequested(svgInput) <==> !IsBlank(svgInput)
  {
    TrimEmptyIffBlank(svgInput);
  }

  /** The class `[-_\s]`. */
  predicate IsSeparator(c: char)
  {
    c == '-' || c == '_' || IsSpace(c)
  }

  predicate NoSeparator(s: string)
  {
    forall i :: 0 <= i < |s| ==> !IsSeparator(s[i])
  }

  /** `name.replace(/\.svg$/, '')`: the extension goes only when it ends the name. */
  function WithoutSvgSuffix(name: string): (r: string)
    ensures EndsWith(name, ".svg") ==> name == r + ".svg"
    ensures !EndsWith(name, ".svg") ==> r == name
  {
    if EndsWith(name, ".svg") then name[..|name| - 4] else name
  }

  /** The first separator of `s`, or `|s|` when there is none. */
  function FirstSeparator(s: string): (k: nat)
    ensures k <= |s| && NoSeparator(s[..k])
    ensures k < |s| ==> IsSeparator(s[k])
  {
    if s == [] || IsSeparator(s[0]) then 0
    else
      var k := FirstSeparator(s[1..]);
      assert s[..k + 1] == [s[0]] + s[1..][..k];
      k + 1
  }

  /** The end of the run of separators that starts at `k`. */
  function RunEnd(s: string, k: nat): (e: nat)
    requires k <= |s|
    ensures k <= e <= |s|
    ensures forall i :: k <= i < e ==> IsSeparator(s[i])
    ensures e < |s| ==> !IsSeparator(s[e])
    decreases |s| - k
  {
    if k < |s| && IsSeparator(s[k]) then RunEnd(s, k + 1) else k
  }

  /** `s.split(/[-_\s]+/)`: the pieces between the maximal runs of separators, empty ones included. */
  function Pieces(s: string): (parts: seq<string>)
    ensures |parts| >= 1
    decreases |s|
  {
    var k := FirstSeparator(s);
    if k == |s| then [s]
    else [s[..k]] + Pieces(s[RunEnd(s, k)..])
  }

  /** `word.charAt(0).toUpperCase() + word.slice(1).toLowerCase()` */
  function Capitalized(word: string): (r: string)
    ensures |r| == |word|
    ensures word != [] ==> r[0] == UpperChar(word[0]) && r[1..] == ToLower(word[1..])
  {
    if word == [] then [] else [UpperChar(word[0])] + ToLower(word[1..])
  }

  function CapitalizedAll(words: seq<string>): (r: seq<string>)
    ensures |r| == |words|
    ensures forall i :: 0 <= i < |words| ==> r[i] == Capitalized(words[i])
  {
    if words == [] then [] else [Capitalized(words[0])] + CapitalizedAll(words[1..])
  }

  /** The derived name, before the page's fallback for an empty result. */
  function DerivedName(name: string): string
  {
    Join(CapitalizedAll(Pieces(WithoutSvgSuffix(name))), "")
  }

  /** `componentName || fallback` */
  function NameOr(componentName: string, fallback: string): (r: string)
    ensures componentName != [] ==> r == componentName
    ensures componentName == [] ==> r == fallback
  {
    if componentName == [] then fallback else componentName
  }

  // ---------------------------------------------------------------- an independent description

  /** The characters of `s` that are not separators, in order. */
  function Kept(s: string): (r: string)
    ensures |r| <= |s|
  {
    if s == [] then []
    else if IsSeparator(s[0]) then Kept(s[1..])
    else [s[0]] + Kept(s[1..])
  }

  lemma {:induction false} KeptConcat(a: string, b: string)
    ensures Kept(a + b) == Kept(a) + Kept(b)
    decreases |a|
  {
    if a == [] {
      assert a + b == b;
    } else {
      assert (a + b)[0] == a[0] && (a + b)[1..] == a[1..] + b;
      KeptConcat(a[1..], b);
      if !IsSeparator(a[0]) {
        assert Kept(a + b) == [a[0]] + (Kept(a[1..]) + Kept(b));
      }
    }
  }

  lemma {:induction false} KeptOfPlain(s: string)
    requires NoSeparator(s)
    ensures Kept(s) == s
    decreases |s|
  {
    if s != [] {
      KeptOfPlain(s[1..]);
    }
  }

  lemma {:induction false} KeptOfSeparators(run: string)
    requires forall i :: 0 <= i < |run| ==> IsSeparator(run[i])
    ensures Kept(run) == []
    decreases |run|
  {
    if run != [] {
      KeptOfSeparators(run[1..]);
    }
  }

  /** Lower-casing forgets the capitalisation of a piece. */
  lemma LowerCapitalized(w: string)
    ensures ToLower(Capitalized(w)) == ToLower(w)
  {
    var r := Capitalized(w);
    forall i | 0 <= i < |w|
      ensures LowerChar(r[i]) == LowerChar(w[i])
    {
      if i > 0 {
        assert r[i] == ToLower(w[1..])[i - 1] == LowerChar(w[i]);
      }
    }
  }

  lemma PlainCapitalized(w: string)
    requires NoSeparator(w)
    ensures NoSeparator(Capitalized(w))
  {
    if w != [] {
      var r := Capitalized(w);
      forall i | 0 <= i < |r|
        ensures !IsSeparator(r[i])
      {
        if i > 0 {
          assert r[i] == LowerChar(w[1..][i - 1]);
        }
      }
    }
  }

  lemma PlainConcat(a: string, b: string)
    requires NoSeparator(a) && NoSeparator(b)
    ensures NoSeparator(a + b)
  {
    forall i | 0 <= i < |a + b|
      ensures !IsSeparator((a + b)[i])
    {
      if i >= |a| {
        assert (a + b)[i] == b[i - |a|];
      }
    }
  }

  lemma JoinCons(x: string, t: seq<string>)
    ensures Join([x] + t, "") == x + Join(t, "")
  {
    if t != [] {
      assert ([x] + t)[1..] == t;
    }
  }

  /** One piece in front of the rest: the joined text grows by that piece, capitalised. */
  lemma PiecesStep(s: string, k: nat, e: nat)
    requires k == FirstSeparator(s) && k < |s| && e == RunEnd(s, k)
    ensures Join(CapitalizedAll(Pieces(s)), "") == Capitalized(s[..k]) + Join(CapitalizedAll(Pieces(s[e..])), "")
  {
    var w, rest := s[..k], s[e..];
    assert Pieces(s) == [w] + Pieces(rest);
    assert CapitalizedAll([w] + Pieces(rest)) == [Capitalized(w)] + CapitalizedAll(Pieces(rest));
    JoinCons(Capitalized(w), CapitalizedAll(Pieces(rest)));
  }

  /** ... and the kept characters grow by the same piece. */
  lemma KeptStep(w: string, run: string, rest: string)
    requires NoSeparator(w)
    requires forall i :: 0 <= i < |run| ==> IsSeparator(run[i])
    ensures Kept(w + run + rest) == w + Kept(rest)
  {
    KeptConcat(w + run, rest);
    KeptConcat(w, run);
    KeptOfSeparators(run);
    KeptOfPlain(w);
    assert w + [] == w;
  }

  lemma ThreeParts(s: string, k: nat, e: nat)
    requires k <= e <= |s|
    ensures s == s[..k] + s[k..e] + s[e..]
  {
    assert s[..e] == s[..k] + s[k..e];
  }

  lemma Combine(w: string, joined: string, kept: string)
    requires NoSeparator(w) && NoSeparator(joined) && ToLower(joined) == ToLower(kept)
    ensures ToLower(Capitalized(w) + joined) == ToLower(w + kept)
    ensures NoSeparator(Capitalized(w) + joined)
  {
    LowerCapitalized(w);
    ToLowerConcat(Capitalized(w), joined);
    ToLowerConcat(w, kept);
    PlainCapitalized(w);
    PlainConcat(Capitalized(w), joined);
  }

  lemma ToLowerConcat(a: string, b: string)
    ensures ToLower(a + b) == ToLower(a) + ToLower(b)
  {
  }

  /** Joining the capitalised pieces keeps, up to case, exactly the non-separator characters. */
  lemma {:induction false} JoinedPieces(s: string)
    ensures ToLower(Join(CapitalizedAll(Pieces(s)), "")) == ToLower(Kept(s))
    ensures NoSeparator(Join(CapitalizedAll(Pieces(s)), ""))
    decreases |s|
  {
    var k := FirstSeparator(s);
    if k == |s| {
      assert s[..k] == s;
      KeptOfPlain(s);
      LowerCapitalized(s);
      PlainCapitalized(s);
    } else {
      var e := RunEnd(s, k);
      JoinedPieces(s[e..]);
      PiecesStep(s, k, e);
      ThreeParts(s, k, e);
      KeptStep(s[..k], s[k..e], s[e..]);
      Combine(s[..k], Join(CapitalizedAll(Pieces(s[e..])), ""), Kept(s[e..]));
    }
  }

  /** The split's pieces hold no separator, and put back together they are the kept characters. */
  lemma {:induction false} PiecesSplit(s: string)
    ensures forall i :: 0 <= i < |Pieces(s)| ==> NoSeparator(Pieces(s)[i])
    ensures Join(Pieces(s), "") == Kept(s)
    decreases |s|
  {
    var k := FirstSeparator(s);
    if k == |s| {
      assert s[..k] == s;
      KeptOfPlain(s);
    } else {
      var e := RunEnd(s, k);
      PiecesSplit(s[e..]);
      assert Pieces(s) == [s[..k]] + Pieces(s[e..]);
      JoinCons(s[..k], Pieces(s[e..]));
      ThreeParts(s, k, e);
      KeptStep(s[..k], s[k..e], s[e..]);
    }
  }

  // ---------------------------------------------------------------- what the pages rely on

  /**
    The derived name holds no separator, and it spells out the name's non-separator characters,
    in order and up to case, once a trailing `.svg` is cut off.
  */
  lemma DerivedNameKeeps(name: string)
    ensures NoSeparator(DerivedName(name))
    ensures ToLower(DerivedName(name)) == ToLower(Kept(WithoutSvgSuffix(name)))
    ensures |DerivedName(name)| == |Kept(WithoutSvgSuffix(name))|
  {
    JoinedPieces(WithoutSvgSuffix(name));
  }

  /** With a fallback that is itself a plain name, the name a page sets is never empty and has no separator. */
  lemma FallbackShape(name: string, fallback: string)
    requires fallback != [] && NoSeparator(fallback)
    ensures NameOr(DerivedName(name), fallback) != []
    ensures NoSeparator(NameOr(DerivedName(name), fallback))
  {
    DerivedNameKeeps(name);
  }

  /** The derived name is empty exactly when nothing but separators is left after the extension, so the fallback is used. */
  lemma {:induction false} EmptyNameIff(name: string)
    ensures DerivedName(name) == [] <==> forall i :: 0 <= i < |WithoutSvgSuffix(name)| ==> IsSeparator(WithoutSvgSuffix(name)[i])
  {
    DerivedNameKeeps(name);
    KeptEmptyIff(WithoutSvgSuffix(name));
  }

  lemma {:induction false} KeptEmptyIff(s: string)
    ensures Kept(s) == [] <==> forall i :: 0 <= i < |s| ==> IsSeparator(s[i])
    decreases |s|
  {
    if s != [] {
      KeptEmptyIff(s[1..]);
      if IsSeparator(s[0]) {
        assert forall i :: 1 <= i < |s| ==> s[i] == s[1..][i - 1];
      }
    }
  }
}
