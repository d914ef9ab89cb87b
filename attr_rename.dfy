/**
  The attribute renames of the text converter: `s.replace(new RegExp(`\\b${name}=`, 'g'), `${to}=`)`
  for hyphenated SVG attribute names and their camel-case React forms. A rename replaces every
  occurrence of the name (at a word boundary, followed by `=`), and it never creates a new
  occurrence of that name or of any other hyphenated name, so after a whole series of renames no
  renamed name followed by `=` is left anywhere.
*/
module AttrRename {
  import opened Text
  import opened Rewrite

  /** `\b` at position `i`: exactly one of the characters on either side of it is a word character. */
  predicate IsBoundary(s: string, i: nat)
  {
    (0 < i <= |s| && IsWordChar(s[i - 1])) != (i < |s| && IsWordChar(s[i]))
  }

  /** `new RegExp(`\\b${name}=`, 'g')` */
  function AttributeName(name: string): Matcher
  {
    (s: string, i: nat) => if IsBoundary(s, i) && OccursAt(s, i, name + "=") then |name| + 1 else 0
  }

  /** `s.replace(new RegExp(`\\b${name}=`, 'g'), `${to}=`)` */
  function Rename(s: string, name: string, to: string): string
  {
    ReplaceGlobal(s, AttributeName(name), Const(to + "="))
  }

  /** The renames of `pairs`, applied one after the other in order. */
  function RenameAll(s: string, pairs: seq<(string, string)>): string
  {
    if pairs == [] then s
    else
      var last := pairs[|pairs| - 1];
      Rename(RenameAll(s, pairs[..|pairs| - 1]), last.0, last.1)
  }

  /** An SVG attribute name: lower-case letters and hyphens, starting with a letter. */
  predicate IsHyphenated(p: string)
  {
    p != [] && IsLower(p[0]) && forall k :: 0 <= k < |p| ==> IsLower(p[k]) || p[k] == '-'
  }

  /** A React property name: word characters only, at least one of them upper-case. */
  predicate IsCamel(c: string)
  {
    (forall k :: 0 <= k < |c| ==> IsWordChar(c[k])) && exists k :: 0 <= k < |c| && IsUpper(c[k])
  }

  predicate WellFormed(pairs: seq<(string, string)>)
  {
    forall k :: 0 <= k < |pairs| ==> IsHyphenated(pairs[k].0) && IsCamel(pairs[k].1)
  }

  /** No occurrence of `name=` at a word boundary is left in `s`. */
  predicate NoneLeft(s: string, name: string)
  {
    forall x :: 0 <= x < |s| ==> !(IsBoundary(s, x) && OccursAt(s, x, name + "="))
  }

  // ---------------------------------------------------------------- what one rename does

  /** No occurrence of `name=` starts inside another one, so the scan replaces every one of them. */
  lemma RenameNoOverlap(s: string, name: string)
    requires IsHyphenated(name)
    ensures NoOverlap(s, AttributeName(name))
  {
    var m := AttributeName(name);
    forall i, j | 0 <= i < j < |s| && j < i + MatchAt(s, i, m) ensures MatchAt(s, j, m) == 0 {
      if MatchAt(s, j, m) > 0 {
        EqualsApart(s, i, j, name);
      }
    }
  }

  /** Two occurrences of `name=` closer together than its length would put `=` inside `name`. */
  lemma EqualsApart(s: string, i: nat, j: nat, name: string)
    requires IsHyphenated(name) && i < j < i + |name| + 1
    requires OccursAt(s, i, name + "=")
    ensures !OccursAt(s, j, name + "=")
  {
    var e := i + |name|;
    assert s[e] == (name + "=")[|name|] == '=';
    assert j <= e < j + |name|;
    assert (name + "=")[e - j] == name[e - j] != '=';
  }

  /** Every occurrence of `name=` at a word boundary becomes `to=`; the text around it is converted on its own. */
  lemma {:induction false} RenameReplaces(s: string, name: string, to: string, k: nat)
    requires IsHyphenated(name) && k < |s|
    requires IsBoundary(s, k) && OccursAt(s, k, name + "=")
    ensures Rename(s, name, to) ==
      ReplaceBetween(s, 0, k, AttributeName(name), Const(to + "=")) + (to + "=")
      + ReplaceFrom(s, k + |name| + 1, AttributeName(name), Const(to + "="))
  {
    RenameLands(s, name, k);
    var e := k + |name| + 1;
    RenameAt(s, name, to, k, e);
    assert ReplaceFrom(s, e, AttributeName(name), Const(to + "="))
      == ReplaceFrom(s, k + |name| + 1, AttributeName(name), Const(to + "="));
  }

  lemma {:induction false} RenameAt(s: string, name: string, to: string, k: nat, e: nat)
    requires k <= |s| && Lands(s, 0, k, AttributeName(name)) && MatchAt(s, k, AttributeName(name)) > 0
    requires e == k + MatchAt(s, k, AttributeName(name))
    ensures Rename(s, name, to) ==
      ReplaceBetween(s, 0, k, AttributeName(name), Const(to + "=")) + (to + "=")
      + ReplaceFrom(s, e, AttributeName(name), Const(to + "="))
  {
    MatchReplaced(s, k, MatchAt(s, k, AttributeName(name)), AttributeName(name), Const(to + "="));
  }

  lemma RenameLands(s: string, name: string, k: nat)
    requires IsHyphenated(name) && k < |s|
    requires IsBoundary(s, k) && OccursAt(s, k, name + "=")
    ensures MatchAt(s, k, AttributeName(name)) == |name| + 1
    ensures Lands(s, 0, k, AttributeName(name))
  {
    assert AttributeName(name)(s, k) == |name| + 1;
    RenameNoOverlap(s, name);
    EveryMatchLands(s, k, AttributeName(name));
  }

  // ---------------------------------------------------------------- what a rename does not create

  /** A name followed by `=` contains only one `=` and no upper-case letter. */
  predicate Plain(w: string)
  {
    forall k :: 0 <= k < |w| ==> w[k] != '=' && !IsUpper(w[k])
  }

  /**
    Every occurrence of `q=` in `t` has a word character before it, the one at the very start
    counting `wordBefore`: so none of them is at a word boundary.
  */
  predicate Unbounded(t: string, q: string, wordBefore: bool)
  {
    forall x :: 0 <= x < |t| && OccursAt(t, x, q + "=") ==> if x == 0 then wordBefore else IsWordChar(t[x - 1])
  }

  /** After a rename, no occurrence of the renamed name is left at a word boundary. */
  lemma RenameLeavesNone(s: string, name: string, to: string)
    requires IsHyphenated(name) && IsCamel(to)
    ensures NoneLeft(Rename(s, name, to), name)
  {
    ScanUnbounded(s, 0, name, to, name);
    UnboundedNoneLeft(Rename(s, name, to), name);
  }

  /** A rename creates no occurrence of a hyphenated name at a word boundary where there was none. */
  lemma RenameKeepsNone(s: string, name: string, to: string, q: string)
    requires IsHyphenated(q) && IsCamel(to) && NoneLeft(s, q)
    ensures NoneLeft(Rename(s, name, to), q)
  {
    ScanUnbounded(s, 0, name, to, q);
    UnboundedNoneLeft(Rename(s, name, to), q);
  }

  lemma UnboundedNoneLeft(t: string, q: string)
    requires IsHyphenated(q) && Unbounded(t, q, false)
    ensures NoneLeft(t, q)
  {
    forall x | 0 <= x < |t| && OccursAt(t, x, q + "=") ensures !IsBoundary(t, x) {
      assert t[x] == (q + "=")[0] == q[0];
    }
  }

  /**
    The output of the scan from `i` has no occurrence of `q=` at a word boundary, the character
    before it being `s[i - 1]` (or the `=` ending a replacement, which is also what `s[i - 1]` is then).
  */
  lemma {:induction false} ScanUnbounded(s: string, i: nat, name: string, to: string, q: string)
    requires i <= |s| && IsHyphenated(q) && IsCamel(to)
    requires q == name || NoneLeft(s, q)
    ensures Unbounded(ReplaceFrom(s, i, AttributeName(name), Const(to + "=")), q, 0 < i && IsWordChar(s[i - 1]))
    decreases |s| - i
  {
    if i < |s| {
      var n := MatchAt(s, i, AttributeName(name));
      if n > 0 {
        ScanUnbounded(s, i + n, name, to, q);
        ScanPastMatch(s, i, n, name, to, q);
      } else {
        ScanUnbounded(s, i + 1, name, to, q);
        ScanPastChar(s, i, name, to, q);
      }
    }
  }

  /** The scan step that replaces a match at `i`. */
  lemma ScanPastMatch(s: string, i: nat, n: nat, name: string, to: string, q: string)
    requires i < |s| && IsHyphenated(q) && IsCamel(to)
    requires n == MatchAt(s, i, AttributeName(name)) > 0
    requires Unbounded(ReplaceFrom(s, i + n, AttributeName(name), Const(to + "=")), q, 0 < i + n && IsWordChar(s[i + n - 1]))
    ensures Unbounded(ReplaceFrom(s, i, AttributeName(name), Const(to + "=")), q, 0 < i && IsWordChar(s[i - 1]))
  {
    var m := AttributeName(name);
    var t := ReplaceFrom(s, i, m, Const(to + "="));
    var rest := ReplaceFrom(s, i + n, m, Const(to + "="));
    assert m(s, i) == n;
    assert s[i + n - 1] == (name + "=")[|name|] == '=';
    assert t == (to + "=") + rest;
    PieceUnbounded(t, to, rest, q, 0 < i && IsWordChar(s[i - 1]));
  }

  /** The scan step that keeps the character at `i`. */
  lemma ScanPastChar(s: string, i: nat, name: string, to: string, q: string)
    requires i < |s| && IsHyphenated(q) && IsCamel(to)
    requires q == name || NoneLeft(s, q)
    requires MatchAt(s, i, AttributeName(name)) == 0
    requires Unbounded(ReplaceFrom(s, i + 1, AttributeName(name), Const(to + "=")), q, 0 < i + 1 && IsWordChar(s[i + 1 - 1]))
    ensures Unbounded(ReplaceFrom(s, i, AttributeName(name), Const(to + "=")), q, 0 < i && IsWordChar(s[i - 1]))
  {
    var m := AttributeName(name);
    var t := ReplaceFrom(s, i, m, Const(to + "="));
    var rest := ReplaceFrom(s, i + 1, m, Const(to + "="));
    KeptPrefix(s, i, q, name, to);
    assert t == [s[i]] + rest;
    if OccursAt(s, i, q + "=") {
      assert s[i] == (q + "=")[0] == q[0];
    }
    CharUnbounded(t, s[i], rest, q, 0 < i && IsWordChar(s[i - 1]));
  }

  /** A replacement `to=` in front of text without a bounded `q=` adds none. */
  lemma PieceUnbounded(t: string, to: string, rest: string, q: string, wordBefore: bool)
    requires IsHyphenated(q) && IsCamel(to)
    requires t == (to + "=") + rest && Unbounded(rest, q, false)
    ensures Unbounded(t, q, wordBefore)
  {
    var p := to + "=";
    var L := |q| + 1;
    forall x | 0 <= x < |t|
      ensures OccursAt(t, x, q + "=") ==> if x == 0 then wordBefore else IsWordChar(t[x - 1])
    {
      if x >= |p| {
        if OccursAt(t, x, q + "=") {
          assert rest[x - |p|..x - |p| + L] == t[x..x + L];
          assert OccursAt(rest, x - |p|, q + "=");
          if x > |p| {
            assert t[x - 1] == rest[x - |p| - 1];
          }
        }
      } else if x + |q| < |p| - 1 {
        if x + L <= |t| {
          assert t[x..x + L][|q|] == t[x + |q|] == to[x + |q|];
          assert (q + "=")[|q|] == '=';
        }
      } else if x + |q| == |p| - 1 {
        if x == 0 {
          PrefixIsNotName(t, to, rest, q);
        } else {
          assert t[x - 1] == to[x - 1];
        }
      } else if x + L <= |t| {
        assert t[x..x + L][|p| - 1 - x] == t[|p| - 1] == '=';
        assert (q + "=")[|p| - 1 - x] == q[|p| - 1 - x];
      }
    }
  }

  /** A replacement `to=` does not read as `q=` for a hyphenated `q`. */
  lemma PrefixIsNotName(t: string, to: string, rest: string, q: string)
    requires IsHyphenated(q) && IsCamel(to)
    requires t == (to + "=") + rest && |q| == |to|
    ensures !OccursAt(t, 0, q + "=")
  {
    var k :| 0 <= k < |to| && IsUpper(to[k]);
    assert t[0..|q| + 1][k] == t[k] == to[k];
    assert (q + "=")[k] == q[k];
  }

  /** A kept character in front of text without a bounded `q=` adds none, unless `q=` starts right there. */
  lemma CharUnbounded(t: string, c: char, rest: string, q: string, wordBefore: bool)
    requires IsHyphenated(q)
    requires t == [c] + rest && Unbounded(rest, q, IsWordChar(c))
    requires StartsWith(t, q + "=") ==> wordBefore
    ensures Unbounded(t, q, wordBefore)
  {
    var L := |q| + 1;
    forall x | 0 <= x < |t|
      ensures OccursAt(t, x, q + "=") ==> if x == 0 then wordBefore else IsWordChar(t[x - 1])
    {
      if x > 0 && OccursAt(t, x, q + "=") {
        assert rest[x - 1..x - 1 + L] == t[x..x + L];
        assert OccursAt(rest, x - 1, q + "=");
        if x > 1 {
          assert t[x - 1] == rest[x - 2];
        }
      }
    }
  }

  /**
    Text that starts the output of the scan from `i` with `w=`, where `w` has no `=` and no
    upper-case letter, was copied unchanged from `s`: a replacement `to=` does not fit it.
  */
  lemma {:induction false} KeptPrefix(s: string, i: nat, w: string, name: string, to: string)
    requires i <= |s| && Plain(w) && IsCamel(to)
    ensures StartsWith(ReplaceFrom(s, i, AttributeName(name), Const(to + "=")), w + "=") ==> OccursAt(s, i, w + "=")
    decreases |s| - i
  {
    if i < |s| {
      var n := MatchAt(s, i, AttributeName(name));
      if n > 0 {
        ReplacedNotPlain(s, i, n, w, name, to);
      } else if w != [] {
        KeptPrefix(s, i + 1, w[1..], name, to);
        KeptPrefixStep(s, i, w, name, to);
      } else {
        KeptPrefixLast(s, i, name, to);
      }
    }
  }

  /** Output that starts with a replacement `to=` does not start with `w=`. */
  lemma ReplacedNotPlain(s: string, i: nat, n: nat, w: string, name: string, to: string)
    requires i < |s| && Plain(w) && IsCamel(to)
    requires n == MatchAt(s, i, AttributeName(name)) > 0
    ensures !StartsWith(ReplaceFrom(s, i, AttributeName(name), Const(to + "=")), w + "=")
  {
    var m := AttributeName(name);
    var t := ReplaceFrom(s, i, m, Const(to + "="));
    assert t == (to + "=") + ReplaceFrom(s, i + n, m, Const(to + "="));
    if |w| < |to| {
      assert t[|w|] == to[|w|] && IsWordChar(to[|w|]);
      assert (w + "=")[|w|] == '=';
    } else if |w| == |to| {
      var k :| 0 <= k < |to| && IsUpper(to[k]);
      assert t[k] == to[k];
      assert (w + "=")[k] == w[k];
    } else {
      assert t[|to|] == '=';
      assert (w + "=")[|to|] == w[|to|];
    }
  }

  /** The step of `KeptPrefix` past a kept character, for a nonempty `w`. */
  lemma KeptPrefixStep(s: string, i: nat, w: string, name: string, to: string)
    requires i < |s| && w != [] && Plain(w)
    requires MatchAt(s, i, AttributeName(name)) == 0
    requires StartsWith(ReplaceFrom(s, i + 1, AttributeName(name), Const(to + "=")), w[1..] + "=") ==> OccursAt(s, i + 1, w[1..] + "=")
    ensures StartsWith(ReplaceFrom(s, i, AttributeName(name), Const(to + "=")), w + "=") ==> OccursAt(s, i, w + "=")
  {
    var m := AttributeName(name);
    var t := ReplaceFrom(s, i, m, Const(to + "="));
    var rest := ReplaceFrom(s, i + 1, m, Const(to + "="));
    assert t == [s[i]] + rest;
    if StartsWith(t, w + "=") {
      assert w + "=" == [w[0]] + (w[1..] + "=");
      assert rest[..|w|] == t[1..|w| + 1];
      assert StartsWith(rest, w[1..] + "=");
      assert s[i..i + |w| + 1] == [s[i]] + s[i + 1..i + 1 + |w|];
    }
  }

  /** The step of `KeptPrefix` past a kept character, for an empty `w`. */
  lemma KeptPrefixLast(s: string, i: nat, name: string, to: string)
    requires i < |s|
    requires MatchAt(s, i, AttributeName(name)) == 0
    ensures StartsWith(ReplaceFrom(s, i, AttributeName(name), Const(to + "=")), "=") ==> OccursAt(s, i, "=")
  {
    var m := AttributeName(name);
    var t := ReplaceFrom(s, i, m, Const(to + "="));
    assert t == [s[i]] + ReplaceFrom(s, i + 1, m, Const(to + "="));
    if StartsWith(t, "=") {
      assert s[i..i + 1] == [t[0]];
    }
  }

  // ---------------------------------------------------------------- a series of renames

  /** After renaming every pair in turn, none of the renamed names is left at a word boundary. */
  lemma {:induction false} RenameAllLeavesNone(s: string, pairs: seq<(string, string)>)
    requires WellFormed(pairs)
    ensures forall k :: 0 <= k < |pairs| ==> NoneLeft(RenameAll(s, pairs), pairs[k].0)
  {
    if pairs != [] {
      var init := pairs[..|pairs| - 1];
      var last := pairs[|pairs| - 1];
      assert WellFormed(init) by {
        forall k | 0 <= k < |init| ensures IsHyphenated(init[k].0) && IsCamel(init[k].1) {
          assert init[k] == pairs[k];
        }
      }
      RenameAllLeavesNone(s, init);
      var before := RenameAll(s, init);
      forall k | 0 <= k < |pairs| ensures NoneLeft(RenameAll(s, pairs), pairs[k].0) {
        if k == |pairs| - 1 {
          RenameLeavesNone(before, last.0, last.1);
        } else {
          assert pairs[k] == init[k];
          RenameKeepsNone(before, last.0, last.1, pairs[k].0);
        }
      }
    }
  }

  /** One more rename at the end of a series. */
  lemma RenameAllSnoc(s: string, pairs: seq<(string, string)>, name: string, to: string)
    ensures RenameAll(s, pairs + [(name, to)]) == Rename(RenameAll(s, pairs), name, to)
  {
    assert (pairs + [(name, to)])[..|pairs|] == pairs;
  }
}
