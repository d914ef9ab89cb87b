/**
  The value-level rewrites of the cleaning passes, each a scanner with the exact semantics of the
  regular expression the cleaner uses: the long-decimal test and its two-digit rounding, the
  `rgb(r, g, b)` functional colour notation (section 4.2.1 of CSS Color Module Level 3) and its
  `#rrggbb` form, the textual clean-up of SVG path data (section 8.3 of SVG 1.1), and the
  `url(#id)` reference target.
*/
module CleanerSyntax {
  import opened Wrappers
  import opened Text

  // ---------------------------------------------------------------- precision

  /** `/^\d+\.\d{3,}$/`: one or more digits, a point, three or more digits. */
  predicate IsLongDecimal(v: string)
  {
    '.' in v &&
    var p := IndexOf(v, '.');
    p >= 1 && AllDigits(v[..p]) && AllDigits(v[p + 1..]) && |v| - p - 1 >= 3
  }

  /** The value of a long decimal in thousandths, the digits after the third decimal dropped. */
  function Thousandths(v: string): nat
    requires IsLongDecimal(v)
  {
    var p := IndexOf(v, '.');
    DecimalValue(v[..p]) * 1000
    + DigitValue(v[p + 1]) * 100 + DigitValue(v[p + 2]) * 10 + DigitValue(v[p + 3])
  }

  /** The value rounded to hundredths, a tie going up (the `n` of `toFixed(2)` on the exact decimal). */
  function Hundredths(v: string): nat
    requires IsLongDecimal(v)
  {
    var t := Thousandths(v);
    t / 10 + (if t % 10 >= 5 then 1 else 0)
  }

  /** A number of hundredths written with exactly two fractional digits. */
  function FixedTwo(h: nat): (r: string)
    ensures |r| >= 4 && r[|r| - 3] == '.'
    ensures AllDigits(r[..|r| - 3]) && AllDigits(r[|r| - 2..])
  {
    var w := NatToString(h / 100);
    var r := w + "." + [DigitChar(h % 100 / 10), DigitChar(h % 10)];
    assert r[..|r| - 3] == w;
    r
  }

  /** `parseFloat(v).toFixed(2)` for a long decimal, computed on its decimal digits. */
  function ToFixedTwo(v: string): string
    requires IsLongDecimal(v)
  {
    FixedTwo(Hundredths(v))
  }

  /** The rounded text is no long decimal: it has exactly two fractional digits. */
  lemma FixedTwoIsShort(h: nat)
    ensures !IsLongDecimal(FixedTwo(h))
  {
    var r := FixedTwo(h);
    var w := r[..|r| - 3];
    assert r == w + "." + r[|r| - 2..];
    assert '.' !in w;
    assert r[|w|] == '.';
    assert IndexOf(r, '.') == |w| by {
      IndexOfUnique(r, '.', |w|);
    }
  }

  lemma IndexOfUnique(s: string, c: char, k: nat)
    requires k < |s| && s[k] == c && c !in s[..k]
    ensures IndexOf(s, c) == k
  {
  }

  /** The rounded text reads back as the rounded value, within half a hundredth of the input. */
  lemma {:induction false} ToFixedTwoValue(v: string)
    requires IsLongDecimal(v)
    ensures var r := ToFixedTwo(v);
      var h := Hundredths(v);
      DecimalValue(r[..|r| - 3]) * 100 + DigitValue(r[|r| - 2]) * 10 + DigitValue(r[|r| - 1]) == h
    ensures 10 * Hundredths(v) - 5 <= Thousandths(v) <= 10 * Hundredths(v) + 4
  {
    FixedTwoValue(Hundredths(v));
    RoundingBounds(Thousandths(v));
  }

  /** The digits of `FixedTwo(h)` read back as `h`. */
  lemma FixedTwoValue(h: nat)
    ensures var r := FixedTwo(h);
      DecimalValue(r[..|r| - 3]) * 100 + DigitValue(r[|r| - 2]) * 10 + DigitValue(r[|r| - 1]) == h
  {
    var r := FixedTwo(h);
    var w := NatToString(h / 100);
    NatToStringRoundTrip(h / 100);
    assert r[..|r| - 3] == w;
    assert r[|r| - 2] == DigitChar(h % 100 / 10) && r[|r| - 1] == DigitChar(h % 10);
    assert DigitValue(DigitChar(h % 100 / 10)) == h % 100 / 10;
    assert DigitValue(DigitChar(h % 10)) == h % 10;
  }

  /** Rounding thousandths to hundredths, a tie going up, moves the value by at most half a hundredth. */
  lemma RoundingBounds(t: nat)
    ensures var h := t / 10 + (if t % 10 >= 5 then 1 else 0);
      10 * h - 5 <= t <= 10 * h + 4
  {
  }

  // ---------------------------------------------------------------- colours

  /** The length of the run of decimal digits at the start of `s`. */
  function DigitSpan(s: string): (n: nat)
    ensures n <= |s| && AllDigits(s[..n]) && (n < |s| ==> !IsDigit(s[n]))
  {
    if s != [] && IsDigit(s[0]) then
      var n := 1 + DigitSpan(s[1..]);
      assert s[..n] == [s[0]] + s[1..][..n - 1];
      n
    else 0
  }

  /** The length of the run of whitespace at the start of `s`. */
  function SpaceSpan(s: string): (n: nat)
    ensures n <= |s| && IsBlank(s[..n]) && (n < |s| ==> !IsSpace(s[n]))
  {
    if s != [] && IsSpace(s[0]) then
      var n := 1 + SpaceSpan(s[1..]);
      assert s[..n] == [s[0]] + s[1..][..n - 1];
      n
    else 0
  }

  /** A run of digits followed by a non-digit spans exactly that run. */
  lemma {:induction false} DigitSpanOf(d: string, rest: string)
    requires AllDigits(d) && (rest != [] ==> !IsDigit(rest[0]))
    ensures DigitSpan(d + rest) == |d|
  {
    if d != [] {
      assert (d + rest)[1..] == d[1..] + rest;
      DigitSpanOf(d[1..], rest);
    } else {
      assert d + rest == rest;
    }
  }

  /** A run of whitespace followed by a non-space spans exactly that run. */
  lemma {:induction false} SpaceSpanOf(w: string, rest: string)
    requires IsBlank(w) && (rest != [] ==> !IsSpace(rest[0]))
    ensures SpaceSpan(w + rest) == |w|
  {
    if w != [] {
      assert (w + rest)[1..] == w[1..] + rest;
      SpaceSpanOf(w[1..], rest);
    } else {
      assert w + rest == rest;
    }
  }

  /** The three captured channel digit strings of an `rgb()` match. */
  datatype Channels = Channels(red: string, green: string, blue: string)

  /**
    A match of `(\d+),\s*` then more at the start of `s`: the next channel and, when another
    separator follows, the rest after it.
  */
  function ChannelThen(s: string, stop: char): Option<(string, string)>
  {
    var n := DigitSpan(s);
    if n > 0 && n < |s| && s[n] == stop then Some((s[..n], s[n + 1..])) else None
  }

  /** A match of `/rgb\((\d+),\s*(\d+),\s*(\d+)\)/` anchored at the start of `s`. */
  function MatchRgb(s: string): (r: Option<Channels>)
    ensures r.Some? ==> StartsWith(s, "rgb(")
    ensures r.Some? ==> AllDigits(r.value.red) && AllDigits(r.value.green) && AllDigits(r.value.blue)
    ensures r.Some? ==> r.value.red != [] && r.value.green != [] && r.value.blue != []
  {
    if !StartsWith(s, "rgb(") then None
    else
      match ChannelThen(s[4..], ',')
      case None => None
      case Some((red, s1)) =>
        var s2 := s1[SpaceSpan(s1)..];
        match ChannelThen(s2, ',')
        case None => None
        case Some((green, s3)) =>
          var s4 := s3[SpaceSpan(s3)..];
          match ChannelThen(s4, ')')
          case None => None
          case Some((blue, _)) => Some(Channels(red, green, blue))
  }

  /** `value.match(/rgb\((\d+),\s*(\d+),\s*(\d+)\)/)`: the leftmost match anywhere in `s`. */
  function FindRgb(s: string): (r: Option<Channels>)
    ensures r.Some? ==> AllDigits(r.value.red) && AllDigits(r.value.green) && AllDigits(r.value.blue)
  {
    if s == [] then None
    else if MatchRgb(s).Some? then MatchRgb(s)
    else FindRgb(s[1..])
  }

  /** Text without the letter `r` holds no `rgb()` notation. */
  lemma {:induction false} FindRgbWithoutR(s: string)
    requires 'r' !in s
    ensures FindRgb(s) == None
  {
    if s != [] {
      assert !StartsWith(s, "rgb(") by {
        if |s| >= 4 {
          assert s[..4][0] == s[0];
        }
      }
      FindRgbWithoutR(s[1..]);
    }
  }

  /** `parseInt(x).toString(16).padStart(2, '0')` for a digit string `x`. */
  function HexChannel(x: string): (r: string)
    requires AllDigits(x)
    ensures AllHexDigits(r) && |r| >= 2
  {
    PadStart(NatToHex(DecimalValue(x)), 2, '0')
  }

  /** The `#rrggbb` text the colour pass writes for a match. */
  function HexColor(c: Channels): (r: string)
    requires AllDigits(c.red) && AllDigits(c.green) && AllDigits(c.blue)
    ensures r != [] && r[0] == '#' && AllHexDigits(r[1..])
  {
    var body := HexChannel(c.red) + HexChannel(c.green) + HexChannel(c.blue);
    AllHexDigitsConcat(HexChannel(c.red), HexChannel(c.green));
    AllHexDigitsConcat(HexChannel(c.red) + HexChannel(c.green), HexChannel(c.blue));
    var r := "#" + body;
    assert r[1..] == body;
    r
  }

  lemma HexColorIs(c: Channels)
    requires AllDigits(c.red) && AllDigits(c.green) && AllDigits(c.blue)
    ensures HexColor(c) == "#" + HexChannel(c.red) + HexChannel(c.green) + HexChannel(c.blue)
  {
  }

  /**
    A channel reads back as its decimal value, and a channel below 256 has exactly two
    lowercase hexadecimal digits.
  */
  lemma HexChannelValue(x: string)
    requires AllDigits(x)
    ensures HexValue(HexChannel(x)) == DecimalValue(x)
    ensures DecimalValue(x) < 256 ==> |HexChannel(x)| == 2
  {
    var h := NatToHex(DecimalValue(x));
    NatToHexRoundTrip(DecimalValue(x));
    NatToHexShort(if DecimalValue(x) < 256 then DecimalValue(x) else 0);
    if |h| < 2 {
      assert HexChannel(x) == "0" + h by {
        assert seq(1, _ => '0') == "0";
      }
      HexValueLeadingZero(h);
    }
  }

  /**
    The value the colour pass writes for a `fill` or `stroke` value, if any: a non-empty value with
    an `rgb()` match anywhere in it is replaced as a whole by the hex form of the leftmost match.
  */
  function Recolored(value: string): (r: Option<string>)
    ensures r.Some? ==> value != [] && FindRgb(value).Some? && r.value != [] && r.value[0] == '#'
  {
    if value == [] then None
    else
      match FindRgb(value)
      case None => None
      case Some(c) => Some(HexColor(c))
  }

  /** A value the colour pass wrote is left alone by a second run. */
  lemma RecoloredStable(value: string)
    requires Recolored(value).Some?
    ensures Recolored(Recolored(value).value) == None
  {
    var r := Recolored(value).value;
    assert r == [r[0]] + r[1..];
    assert 'r' !in r by {
      forall i | 0 <= i < |r| ensures r[i] != 'r' {
        if i > 0 {
          assert r[1..][i - 1] == r[i];
        }
      }
    }
    FindRgbWithoutR(r);
  }

  // ---------------------------------------------------------------- path data

  predicate IsMoveOrLine(c: char) { c == 'M' || c == 'L' }

  predicate IsClose(c: char) { c == 'Z' }

  /**
    `s.replace(/([ML])\s*([ML])/g, '$2')` (with `pair` the move/line class) or
    `s.replace(/Z\s*Z/g, 'Z')` (with `pair` the close class): scanning left to right, a class
    letter, optional whitespace and another class letter become the second letter.
  */
  function DropPairs(s: string, close: bool): (r: string)
    ensures |r| <= |s|
    ensures r != [] && IsSpace(r[0]) ==> s != [] && r[0] == s[0]
    decreases |s|
  {
    if s == [] then []
    else
      var rest := TrimStart(s[1..]);
      if InPair(s[0], close) && rest != [] && InPair(rest[0], close) then
        [rest[0]] + DropPairs(rest[1..], close)
      else
        [s[0]] + DropPairs(s[1..], close)
  }

  /** Dropping letter pairs never creates a run of whitespace. */
  lemma {:induction false} DropPairsNoSpaceRun(s: string, close: bool)
    requires NoSpaceRun(s)
    ensures NoSpaceRun(DropPairs(s, close))
    decreases |s|
  {
    if s != [] {
      var rest := TrimStart(s[1..]);
      if InPair(s[0], close) && rest != [] && InPair(rest[0], close) {
        NoSpaceRunInfix(s, |s| - |rest| + 1, |s|);
        assert s[|s| - |rest| + 1..] == rest[1..];
        DropPairsNoSpaceRun(rest[1..], close);
        NoSpaceRunCons(rest[0], DropPairs(rest[1..], close));
      } else {
        NoSpaceRunInfix(s, 1, |s|);
        DropPairsNoSpaceRun(s[1..], close);
        NoSpaceRunCons(s[0], DropPairs(s[1..], close));
      }
    }
  }

  /** A character in front of a text without whitespace runs starts none unless both are spaces. */
  lemma NoSpaceRunCons(c: char, t: string)
    requires NoSpaceRun(t) && (t != [] && IsSpace(t[0]) ==> !IsSpace(c))
    ensures NoSpaceRun([c] + t)
  {
    var u := [c] + t;
    forall k | 0 <= k < |u| - 1 ensures !(IsSpace(u[k]) && IsSpace(u[k + 1])) {
      if k > 0 {
        assert u[k] == t[k - 1] && u[k + 1] == t[k];
      }
    }
  }

  predicate InPair(c: char, close: bool)
  {
    if close then IsClose(c) else IsMoveOrLine(c)
  }

  /**
    The `d` rewrite of the path pass: whitespace runs become one space, a move/line letter
    directly followed by another loses the first, `Z Z` becomes `Z`, and the ends are trimmed.
  */
  function SimplifyPathData(d: string): (r: string)
    ensures IsTrimmed(r) && NoSpaceRun(r)
    ensures |r| <= |d|
  {
    var collapsed := CollapseSpaces(d);
    var r := Trim(DropPairs(DropPairs(collapsed, false), true));
    DropPairsNoSpaceRun(collapsed, false);
    DropPairsNoSpaceRun(DropPairs(collapsed, false), true);
    NoSpaceRunTrim(DropPairs(DropPairs(collapsed, false), true));
    r
  }

  /** The rewrite is not idempotent: `M L L` becomes `L L`, which a second run turns into `L`. */
  lemma SimplifyPathDataNotIdempotent()
    ensures SimplifyPathData("M L L") == "L L"
    ensures SimplifyPathData("L L") == "L"
  {
    SimplifyFirstRun();
    SimplifySecondRun();
  }

  lemma SimplifyFirstRun()
    ensures SimplifyPathData("M L L") == "L L"
  {
    SpacedLetters();
    FirstRound();
    var c := DropPairs(DropPairs(CollapseSpaces("M L L"), false), true);
    assert c == "L L";
  }

  lemma SimplifySecondRun()
    ensures SimplifyPathData("L L") == "L"
  {
    SpacedLetters();
    SecondRound();
    var c := DropPairs(DropPairs(CollapseSpaces("L L"), false), true);
    assert c == "L";
  }

  lemma SpacedLetters()
    ensures TrimStart(" L L") == "L L" && TrimStart(" L") == "L" && TrimStart("L") == "L"
    ensures TrimStart("") == ""
  {
    SpacedOne();
    SpacedTwo();
  }

  lemma SpacedOne()
    ensures TrimStart(" L") == "L" && TrimStart("L") == "L"
  {
    TrimStartKeeps("L");
    assert " L"[1..] == "L";
    TrimStartDrops(" L");
  }

  lemma SpacedTwo()
    ensures TrimStart(" L L") == "L L"
  {
    TrimStartKeeps("L L");
    assert " L L"[1..] == "L L";
    TrimStartDrops(" L L");
  }

  lemma FirstRound()
    requires TrimStart(" L L") == "L L" && TrimStart(" L") == "L" && TrimStart("L") == "L"
    requires TrimStart("") == ""
    ensures CollapseSpaces("M L L") == "M L L"
    ensures DropPairs("M L L", false) == "L L"
    ensures DropPairs("L L", true) == "L L"
    ensures Trim("L L") == "L L"
  {
    assert "M L L"[1..] == " L L" && " L L"[1..] == "L L" && "L L"[1..] == " L" && " L"[1..] == "L";
    assert "L"[1..] == "";
    assert CollapseSpaces("L") == "L";
    assert CollapseSpaces(" L") == " L";
    assert CollapseSpaces("L L") == "L L";
    assert CollapseSpaces(" L L") == " L L";
    assert DropPairs("L", false) == "L";
    assert DropPairs(" L", false) == " L";
    assert DropPairs("L", true) == "L";
    assert DropPairs(" L", true) == " L";
    assert TrimEnd("L L") == "L L";
  }

  lemma SecondRound()
    requires TrimStart(" L") == "L" && TrimStart("L") == "L" && TrimStart("") == ""
    ensures CollapseSpaces("L L") == "L L"
    ensures DropPairs("L L", false) == "L"
    ensures DropPairs("L", true) == "L"
    ensures Trim("L") == "L"
  {
    assert "L L"[1..] == " L" && " L"[1..] == "L" && "L"[1..] == "";
    assert CollapseSpaces("L") == "L";
    assert CollapseSpaces(" L") == " L";
    assert DropPairs("", false) == "";
    assert TrimEnd("L") == "L";
  }

  // ---------------------------------------------------------------- references

  /**
    The id a reference value names: for a non-empty value starting with `url(#`,
    `value.slice(5, -1)` (everything after `url(#` except the last character, so `url(#a)`
    names `a`; the closing parenthesis is not checked).
  */
  function ReferencedId(value: string): (r: Option<string>)
    ensures r.Some? <==> StartsWith(value, "url(#")
    ensures r.Some? && |value| > 6 ==> r.value == value[5..|value| - 1]
    ensures r.Some? && |value| <= 6 ==> r.value == []
  {
    if value != [] && StartsWith(value, "url(#") then
      Some(if |value| > 6 then value[5..|value| - 1] else [])
    else None
  }
}
