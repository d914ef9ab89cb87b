/**
  Strings as `seq<char>` and the JavaScript string operations the converter relies on:
  the `\s` class (which `String.prototype.trim` also strips), ASCII case mapping,
  `trim`, `split` / `join` on one character,
  whitespace collapsing, and decimal and hexadecimal rendering of naturals.
*/
module Text {

  /** JavaScript's `\s`: the WhiteSpace and LineTerminator characters of ECMAScript. */
  predicate IsSpace(c: char)
  {
    c == ' ' || c == '\t' || c == '\n' || c == '\r' || c == '\U{B}' || c == '\U{C}'
    || c == '\U{A0}' || c == '\U{1680}' || ('\U{2000}' <= c <= '\U{200A}')
    || c == '\U{2028}' || c == '\U{2029}' || c == '\U{202F}' || c == '\U{205F}'
    || c == '\U{3000}' || c == '\U{FEFF}'
  }

  /** JavaScript's `\d`. */
  predicate IsDigit(c: char) { '0' <= c <= '9' }

  predicate IsLower(c: char) { 'a' <= c <= 'z' }

  predicate IsUpper(c: char) { 'A' <= c <= 'Z' }

  /** `[a-zA-Z0-9]` */
  predicate IsAlnum(c: char) { IsLower(c) || IsUpper(c) || IsDigit(c) }

  /** JavaScript's `\w`, the class that also decides `\b`. */
  predicate IsWordChar(c: char) { IsAlnum(c) || c == '_' }

  function UpperChar(c: char): (r: char)
    ensures IsLower(c) ==> IsUpper(r)
    ensures !IsLower(c) ==> r == c
  {
    if IsLower(c) then (c as int - 32) as char else c
  }

  function LowerChar(c: char): (r: char)
    ensures IsUpper(c) ==> IsLower(r)
    ensures !IsUpper(c) ==> r == c
  {
    if IsUpper(c) then (c as int + 32) as char else c
  }

  /** `toUpperCase`, on the ASCII letters. */
  function ToUpper(s: string): (r: string)
    ensures |r| == |s|
    ensures forall i :: 0 <= i < |s| ==> r[i] == UpperChar(s[i])
  {
    seq(|s|, i requires 0 <= i < |s| => UpperChar(s[i]))
  }

  /** `toLowerCase`, on the ASCII letters. */
  function ToLower(s: string): (r: string)
    ensures |r| == |s|
    ensures forall i :: 0 <= i < |s| ==> r[i] == LowerChar(s[i])
  {
    seq(|s|, i requires 0 <= i < |s| => LowerChar(s[i]))
  }

  predicate IsBlank(s: string)
  {
    forall i :: 0 <= i < |s| ==> IsSpace(s[i])
  }

  predicate StartsWith(s: string, p: string)
  {
    |p| <= |s| && s[..|p|] == p
  }

  predicate EndsWith(s: string, p: string)
  {
    |p| <= |s| && s[|s| - |p|..] == p
  }

  lemma StartsSelf(s: string)
    ensures StartsWith(s, s)
  {
    assert s[..|s|] == s;
  }

  lemma StartsConcat(a: string, b: string, p: string)
    requires StartsWith(a, p)
    ensures StartsWith(a + b, p)
  {
    assert (a + b)[..|p|] == a[..|p|];
  }

  lemma EndsConcat(a: string, b: string, p: string)
    requires EndsWith(b, p)
    ensures EndsWith(a + b, p)
  {
    assert (a + b)[|a + b| - |p|..] == b[|b| - |p|..];
  }

  /** `s` cannot start with `p` when the known starts of the two differ at position `i`. */
  lemma StartsApart(s: string, a: string, p: string, b: string, i: nat)
    requires StartsWith(s, a) && StartsWith(p, b) && i < |a| && i < |b| && a[i] != b[i]
    ensures !StartsWith(s, p)
  {
    assert s[..|a|][i] == s[i] && p[..|b|][i] == p[i];
    if |p| <= |s| {
      assert s[..|p|][i] == s[i];
    }
  }

  /** `s` cannot end with `p` when the known ends of the two differ `i` places from the end. */
  lemma EndsApart(s: string, a: string, p: string, b: string, i: nat)
    requires EndsWith(s, a) && EndsWith(p, b) && i < |a| && i < |b| && a[|a| - 1 - i] != b[|b| - 1 - i]
    ensures !EndsWith(s, p)
  {
    assert s[|s| - |a|..][|a| - 1 - i] == s[|s| - 1 - i];
    assert p[|p| - |b|..][|b| - 1 - i] == p[|p| - 1 - i];
    if |p| <= |s| {
      assert s[|s| - |p|..][|p| - 1 - i] == s[|s| - 1 - i];
    }
  }

  predicate OccursAt(s: string, i: int, p: string)
  {
    0 <= i && i + |p| <= |s| && s[i..i + |p|] == p
  }

  predicate Contains(s: string, p: string)
  {
    exists i :: 0 <= i <= |s| && OccursAt(s, i, p)
  }

  /** No two adjacent characters of `s` are both whitespace. */
  predicate NoSpaceRun(s: string)
  {
    forall i :: 0 <= i < |s| - 1 ==> !(IsSpace(s[i]) && IsSpace(s[i + 1]))
  }

  /** Neither end of `s` is whitespace. */
  predicate IsTrimmed(s: string)
  {
    s == [] || (!IsSpace(s[0]) && !IsSpace(s[|s| - 1]))
  }

  /** The leading run of whitespace is dropped. */
  function TrimStart(s: string): (r: string)
    ensures |r| <= |s| && r == s[|s| - |r|..]
    ensures IsBlank(s[..|s| - |r|])
    ensures r == [] || !IsSpace(r[0])
  {
    if s != [] && IsSpace(s[0]) then TrimStart(s[1..]) else s
  }

  lemma TrimStartKeeps(s: string)
    requires s != [] && !IsSpace(s[0])
    ensures TrimStart(s) == s
  {
  }

  lemma TrimStartDrops(s: string)
    requires s != [] && IsSpace(s[0])
    ensures TrimStart(s) == TrimStart(s[1..])
  {
  }

  /** The trailing run of whitespace is dropped. */
  function TrimEnd(s: string): (r: string)
    ensures |r| <= |s| && r == s[..|r|]
    ensures IsBlank(s[|r|..])
    ensures r == [] || !IsSpace(r[|r| - 1])
  {
    if s != [] && IsSpace(s[|s| - 1]) then TrimEnd(s[..|s| - 1]) else s
  }

  /** `String.prototype.trim`: neither end of the result is whitespace. */
  function Trim(s: string): (r: string)
    ensures IsTrimmed(r)
    ensures |r| <= |s|
  {
    TrimEnd(TrimStart(s))
  }

  /** The trimmed text is the infix of `s` left after cutting off only whitespace at each end. */
  lemma TrimInfix(s: string) returns (k: nat)
    ensures k + |Trim(s)| <= |s| && Trim(s) == s[k..k + |Trim(s)|]
    ensures IsBlank(s[..k]) && IsBlank(s[k + |Trim(s)|..])
  {
    k := |s| - |TrimStart(s)|;
    TrimEndOfSuffix(s, k, TrimStart(s));
  }

  /** Trimming the end of a suffix of `s` leaves an infix of `s` followed only by whitespace. */
  lemma TrimEndOfSuffix(s: string, k: nat, a: string)
    requires k <= |s| && a == s[k..]
    ensures var r := TrimEnd(a);
      k + |r| <= |s| && r == s[k..k + |r|] && IsBlank(s[k + |r|..])
  {
    var r := TrimEnd(a);
    assert a[..|r|] == s[k..k + |r|];
    assert a[|r|..] == s[k + |r|..];
  }

  /** `!s.trim()` in JavaScript: the trimmed string is empty exactly when `s` is all whitespace. */
  lemma TrimEmptyIffBlank(s: string)
    ensures Trim(s) == [] <==> IsBlank(s)
  {
    var r := Trim(s);
    var k := TrimInfix(s);
    if r == [] {
      forall i | 0 <= i < |s| ensures IsSpace(s[i]) {
        if i < k { assert s[..k][i] == s[i]; } else { assert s[k..][i - k] == s[i]; }
      }
    } else {
      assert s[k] == r[0];
    }
  }

  /** Whitespace-free text is its own trim. */
  lemma TrimOfTrimmed(s: string)
    requires IsTrimmed(s)
    ensures Trim(s) == s
  {
  }

  /** A trimmed string keeps the no-adjacent-whitespace property of its source. */
  lemma NoSpaceRunInfix(s: string, i: nat, j: nat)
    requires i <= j <= |s| && NoSpaceRun(s)
    ensures NoSpaceRun(s[i..j])
  {
    var t := s[i..j];
    forall k | 0 <= k < |t| - 1 ensures !(IsSpace(t[k]) && IsSpace(t[k + 1])) {
      assert t[k] == s[i + k] && t[k + 1] == s[i + k + 1];
    }
  }

  lemma NoSpaceRunTrim(s: string)
    requires NoSpaceRun(s)
    ensures NoSpaceRun(Trim(s))
  {
    var k := TrimInfix(s);
    NoSpaceRunInfix(s, k, k + |Trim(s)|);
  }

  /**
    `s.replace(/\s+/g, ' ')`: every maximal whitespace run becomes one space. The result has no two
    adjacent whitespace characters, spaces are its only whitespace, and it starts with whitespace
    exactly when `s` does.
  */
  function CollapseSpaces(s: string): (r: string)
    ensures NoSpaceRun(r)
    ensures forall i :: 0 <= i < |r| && IsSpace(r[i]) ==> r[i] == ' '
    ensures (r == []) == (s == [])
    ensures s != [] ==> (IsSpace(r[0]) <==> IsSpace(s[0]))
    ensures s != [] && !IsSpace(s[0]) ==> r[0] == s[0]
    ensures |r| <= |s|
  {
    if s == [] then []
    else if IsSpace(s[0]) then
      var rest := TrimStart(s);
      assert |rest| < |s|;
      [' '] + CollapseSpaces(rest)
    else [s[0]] + CollapseSpaces(s[1..])
  }

  /**
    `s.replace(/\s{2,}/g, ' ')`: runs of two or more whitespace characters become one space; a
    single whitespace character is kept as it is. No two adjacent whitespace characters remain.
  */
  function CollapseLongSpaces(s: string): (r: string)
    ensures NoSpaceRun(r)
    ensures (r == []) == (s == [])
    ensures s != [] && !IsSpace(s[0]) ==> r[0] == s[0]
    ensures |r| <= |s|
  {
    if s == [] then []
    else if |s| >= 2 && IsSpace(s[0]) && IsSpace(s[1]) then
      var rest := TrimStart(s);
      assert |rest| < |s|;
      [' '] + CollapseLongSpaces(rest)
    else [s[0]] + CollapseLongSpaces(s[1..])
  }

  /** `parts.join(sep)` */
  function Join(parts: seq<string>, sep: string): string
  {
    if parts == [] then []
    else if |parts| == 1 then parts[0]
    else parts[0] + sep + Join(parts[1..], sep)
  }

  /** `s.split(c)` for one character `c`. */
  function Split(s: string, c: char): (parts: seq<string>)
    ensures |parts| >= 1
    decreases |s|
  {
    if c !in s then [s]
    else
      var k := IndexOf(s, c);
      [s[..k]] + Split(s[k + 1..], c)
  }

  /** No piece of a split contains the separator. */
  lemma {:induction false} SplitPieces(s: string, c: char)
    ensures forall i :: 0 <= i < |Split(s, c)| ==> c !in Split(s, c)[i]
    decreases |s|
  {
    if c in s {
      var k := IndexOf(s, c);
      SplitPieces(s[k + 1..], c);
      var parts := Split(s, c);
      assert parts == [s[..k]] + Split(s[k + 1..], c);
      forall i | 0 <= i < |parts| ensures c !in parts[i] {
        if i > 0 {
          assert parts[i] == Split(s[k + 1..], c)[i - 1];
        }
      }
    }
  }

  /** The position of the first `c` in `s`. */
  function IndexOf(s: string, c: char): (k: nat)
    requires c in s
    ensures k < |s| && s[k] == c && c !in s[..k]
  {
    if s[0] == c then 0 else 1 + IndexOf(s[1..], c)
  }

  lemma {:induction false} IndexOfConcat(a: string, b: string, c: char)
    requires c in a + b
    ensures c in a ==> IndexOf(a + b, c) == IndexOf(a, c)
    ensures c !in a ==> c in b && IndexOf(a + b, c) == |a| + IndexOf(b, c)
  {
    if a != [] {
      if a[0] != c {
        assert (a + b)[1..] == a[1..] + b;
        IndexOfConcat(a[1..], b, c);
      }
    } else {
      assert a + b == b;
    }
  }
  lemma SplitUnfold(s: string, c: char)
    requires c in s
    ensures Split(s, c) == [s[..IndexOf(s, c)]] + Split(s[IndexOf(s, c) + 1..], c)
  {
  }
  lemma SliceAround(a: string, b: string, c: char, k: nat)
    requires k < |a|
    ensures (a + [c] + b)[..k] == a[..k] && (a + [c] + b)[k + 1..] == a[k + 1..] + [c] + b
  {
    assert a + [c] + b == a + ([c] + b);
  }
  lemma ConsAssoc<T>(h: T, x: seq<T>, y: seq<T>)
    ensures [h] + (x + y) == ([h] + x) + y
  {
  }

  /** Splitting `a`, the separator, `b` gives the pieces of `a`, then those of `b`. */
  lemma {:induction false} SplitConcat(a: string, b: string, c: char)
    ensures Split(a + [c] + b, c) == Split(a, c) + Split(b, c)
    decreases |a|
  {
    assert a + [c] + b == a + ([c] + b);
    assert c in [c] + b;
    IndexOfConcat(a, [c] + b, c);
    if c in a {
      SliceAround(a, b, c, IndexOf(a, c));
      SplitConcat(a[IndexOf(a, c) + 1..], b, c);
      SplitUnfold(a, c);
      SplitUnfold(a + [c] + b, c);
      ConsAssoc(a[..IndexOf(a, c)], Split(a[IndexOf(a, c) + 1..], c), Split(b, c));
    } else {
      assert IndexOf([c] + b, c) == 0;
      assert (a + [c] + b)[..|a|] == a && (a + [c] + b)[|a| + 1..] == b;
    }
  }
  lemma {:induction false} JoinConcat(x: seq<string>, y: seq<string>, sep: string)
    requires x != [] && y != []
    ensures Join(x + y, sep) == Join(x, sep) + sep + Join(y, sep)
  {
    if |x| > 1 {
      assert (x + y)[0] == x[0] && (x + y)[1..] == x[1..] + y;
      JoinConcat(x[1..], y, sep);
    } else {
      assert (x + y)[0] == x[0] && (x + y)[1..] == y;
    }
  }

  /** Splitting on a character and joining with it again gives back the text. */
  lemma {:induction false} JoinSplit(s: string, c: char)
    ensures Join(Split(s, c), [c]) == s
    decreases |s|
  {
    if c in s {
      var k := IndexOf(s, c);
      var t := s[k + 1..];
      JoinSplitStep(s, c, k, t);
      JoinSplit(t, c);
      Reassemble(s, k);
    }
  }

  /** One step of splitting: the text before the first separator, the separator, the rest. */
  lemma JoinSplitStep(s: string, c: char, k: nat, t: string)
    requires c in s && k == IndexOf(s, c) && t == s[k + 1..]
    ensures Join(Split(s, c), [c]) == s[..k] + [c] + Join(Split(t, c), [c])
  {
    var rest := Split(t, c);
    var parts := [s[..k]] + rest;
    assert Split(s, c) == parts;
    assert parts[0] == s[..k] && parts[1..] == rest && |parts| > 1;
  }

  /** A text is the part before position `k`, the character at `k` and the part after. */
  lemma Reassemble(s: string, k: nat)
    requires k < |s|
    ensures s[..k] + [s[k]] + s[k + 1..] == s
  {
  }

  function DigitChar(d: nat): (c: char)
    requires d < 10
    ensures IsDigit(c)
  {
    ('0' as int + d) as char
  }

  function DigitValue(c: char): (d: nat)
    requires IsDigit(c)
    ensures d < 10
  {
    c as int - '0' as int
  }

  predicate AllDigits(s: string)
  {
    forall i :: 0 <= i < |s| ==> IsDigit(s[i])
  }

  /** The value of a string of decimal digits (`parseInt` on digits alone). */
  function DecimalValue(s: string): nat
    requires AllDigits(s)
  {
    if s == [] then 0 else DecimalValue(s[..|s| - 1]) * 10 + DigitValue(s[|s| - 1])
  }

  /** `String(n)`: decimal digits without leading zeros. */
  function NatToString(n: nat): (r: string)
    ensures r != [] && AllDigits(r)
    ensures |r| > 1 ==> r[0] != '0'
    decreases n
  {
    if n < 10 then [DigitChar(n)] else NatToString(n / 10) + [DigitChar(n % 10)]
  }

  /** Reading back a rendered natural gives the natural. */
  lemma {:induction false} NatToStringRoundTrip(n: nat)
    ensures DecimalValue(NatToString(n)) == n
    decreases n
  {
    if n >= 10 {
      NatToStringRoundTrip(n / 10);
      var r := NatToString(n);
      assert r[..|r| - 1] == NatToString(n / 10);
    }
  }

  predicate IsHexDigit(c: char) { IsDigit(c) || ('a' <= c <= 'f') }

  function HexChar(d: nat): (c: char)
    requires d < 16
    ensures IsHexDigit(c)
  {
    if d < 10 then DigitChar(d) else ('a' as int + d - 10) as char
  }

  function HexDigitValue(c: char): (d: nat)
    requires IsHexDigit(c)
    ensures d < 16
  {
    if IsDigit(c) then DigitValue(c) else c as int - 'a' as int + 10
  }

  predicate AllHexDigits(s: string)
  {
    forall i :: 0 <= i < |s| ==> IsHexDigit(s[i])
  }

  lemma AllHexDigitsConcat(a: string, b: string)
    requires AllHexDigits(a) && AllHexDigits(b)
    ensures AllHexDigits(a + b)
  {
    forall i | 0 <= i < |a + b| ensures IsHexDigit((a + b)[i]) {
      if i >= |a| {
        assert (a + b)[i] == b[i - |a|];
      }
    }
  }

  /** The value of a string of lowercase hexadecimal digits. */
  function HexValue(s: string): nat
    requires AllHexDigits(s)
  {
    if s == [] then 0 else HexValue(s[..|s| - 1]) * 16 + HexDigitValue(s[|s| - 1])
  }

  /** `n.toString(16)`: lowercase hexadecimal digits without leading zeros. */
  function NatToHex(n: nat): (r: string)
    ensures r != [] && AllHexDigits(r)
    ensures |r| > 1 ==> r[0] != '0'
    ensures n < 16 <==> |r| == 1
    decreases n
  {
    if n < 16 then [HexChar(n)] else NatToHex(n / 16) + [HexChar(n % 16)]
  }

  lemma {:induction false} NatToHexRoundTrip(n: nat)
    ensures HexValue(NatToHex(n)) == n
    decreases n
  {
    if n >= 16 {
      NatToHexRoundTrip(n / 16);
      var r := NatToHex(n);
      assert r[..|r| - 1] == NatToHex(n / 16);
    } else {
      assert HexDigitValue(HexChar(n)) == n;
    }
  }

  /** A value below 256 has at most two hexadecimal digits. */
  lemma NatToHexShort(n: nat)
    requires n < 256
    ensures |NatToHex(n)| <= 2
  {
    if n >= 16 {
      assert n / 16 < 16;
    }
  }

  /** Leading zeros do not change a hexadecimal value. */
  lemma {:induction false} HexValueLeadingZero(s: string)
    requires AllHexDigits(s)
    ensures AllHexDigits("0" + s) && HexValue("0" + s) == HexValue(s)
    decreases |s|
  {
    var z := "0" + s;
    if s != [] {
      assert z[..|z| - 1] == "0" + s[..|s| - 1];
      HexValueLeadingZero(s[..|s| - 1]);
    }
  }

  /** `s.padStart(n, c)` */
  function PadStart(s: string, n: nat, c: char): (r: string)
    ensures |r| == if |s| >= n then |s| else n
    ensures EndsWith(r, s)
    ensures forall i :: 0 <= i < |r| - |s| ==> r[i] == c
  {
    if |s| >= n then s
    else
      var r := seq(n - |s|, _ => c) + s;
      assert r[|r| - |s|..] == s;
      r
  }
}
