/**
  `String.prototype.replace` and `match` with the regular expressions the converter uses. An
  expression is given by its matcher: the length of the match that the expression's backtracking
  search settles on at a position, or 0 where no match starts there (none of the expressions used
  matches the empty text). A global replace scans from the left and resumes right after each
  match; a replace without `g` changes the leftmost match only.
*/
module Rewrite {
  import opened Wrappers
  import opened Text

  type Matcher = (string, nat) -> nat

  /** The length of the match of `m` at `i`, where one starts there and fits in `s`; 0 otherwise. */
  function MatchAt(s: string, i: nat, m: Matcher): (n: nat)
    ensures n > 0 ==> i + n <= |s|
  {
    if i < |s| && 0 < m(s, i) <= |s| - i then m(s, i) else 0
  }

  /** The pattern made of the literal characters `p`. */
  function Literal(p: string): Matcher
  {
    (s: string, i: nat) => if OccursAt(s, i, p) then |p| else 0
  }

  /** The output of a global replace for the part of `s` that the scan reads from `i` on. */
  function ReplaceFrom(s: string, i: nat, m: Matcher, rep: string -> string): string
    requires i <= |s|
    decreases |s| - i
  {
    if i == |s| then []
    else
      var n := MatchAt(s, i, m);
      if n > 0 then rep(s[i..i + n]) + ReplaceFrom(s, i + n, m, rep)
      else [s[i]] + ReplaceFrom(s, i + 1, m, rep)
  }

  /** `s.replace(/re/g, rep)`, where `rep` computes each replacement from the matched text. */
  function ReplaceGlobal(s: string, m: Matcher, rep: string -> string): string
  {
    ReplaceFrom(s, 0, m, rep)
  }

  /** The replacement that is the same text whatever was matched. */
  function Const(t: string): string -> string
  {
    (_: string) => t
  }

  /** `s.replace(/p/g, t)` for a literal pattern `p`: written out this way in the generated code. */
  function ReplaceLiteral(s: string, p: string, t: string): string
  {
    ReplaceGlobal(s, Literal(p), Const(t))
  }

  /** One step of the scan over a match that ends at `e`. */
  lemma ReplaceMatchStep(s: string, i: nat, m: Matcher, rep: string -> string, e: nat, t: string)
    requires i < e <= |s| && e - i == MatchAt(s, i, m) && rep(s[i..e]) == t
    ensures ReplaceFrom(s, i, m, rep) == t + ReplaceFrom(s, e, m, rep)
  { }

  /** One step of the scan over a character where no match starts. */
  lemma ReplaceSkipStep(s: string, i: nat, m: Matcher, rep: string -> string)
    requires i < |s| && MatchAt(s, i, m) == 0
    ensures ReplaceFrom(s, i, m, rep) == [s[i]] + ReplaceFrom(s, i + 1, m, rep)
  { }

  /** The leftmost position at or after `i` where a match starts. */
  function FirstMatch(s: string, i: nat, m: Matcher): (r: Option<nat>)
    requires i <= |s|
    ensures r.Some? ==> i <= r.value < |s| && MatchAt(s, r.value, m) > 0
    ensures r.Some? ==> forall j :: i <= j < r.value ==> MatchAt(s, j, m) == 0
    ensures r.None? ==> forall j :: i <= j < |s| ==> MatchAt(s, j, m) == 0
    decreases |s| - i
  {
    if i == |s| then None
    else if MatchAt(s, i, m) > 0 then Some(i)
    else FirstMatch(s, i + 1, m)
  }

  /** The leftmost match at or after `i` is at `k` when one starts at `k` and none starts between. */
  lemma {:induction false} FirstMatchIs(s: string, i: nat, k: nat, m: Matcher)
    requires i <= k < |s| && MatchAt(s, k, m) > 0
    requires forall j :: i <= j < k ==> MatchAt(s, j, m) == 0
    ensures FirstMatch(s, i, m) == Some(k)
    decreases k - i
  {
    if i < k {
      FirstMatchIs(s, i + 1, k, m);
    }
  }

  /** `s.replace(/re/, rep)`: the leftmost match alone is replaced. */
  function ReplaceFirst(s: string, m: Matcher, rep: string -> string): string
  {
    match FirstMatch(s, 0, m)
    case None => s
    case Some(k) =>
      var n := MatchAt(s, k, m);
      s[..k] + rep(s[k..k + n]) + s[k + n..]
  }

  /** A replace without `g` swaps the leftmost match for its replacement and keeps the text around it. */
  lemma ReplaceFirstAt(s: string, m: Matcher, rep: string -> string, k: nat, n: nat)
    requires FirstMatch(s, 0, m) == Some(k) && n == MatchAt(s, k, m)
    ensures ReplaceFirst(s, m, rep) == s[..k] + rep(s[k..k + n]) + s[k + n..]
  {
  }

  /** The number of matches a global scan finds from `i` on: `(s.match(/re/g) || []).length`. */
  function CountFrom(s: string, i: nat, m: Matcher): nat
    requires i <= |s|
    decreases |s| - i
  {
    if i == |s| then 0
    else
      var n := MatchAt(s, i, m);
      if n > 0 then 1 + CountFrom(s, i + n, m) else CountFrom(s, i + 1, m)
  }

  /** The number of positions from `i` on where `p` occurs, overlapping ones included. */
  function OccurrencesFrom(s: string, i: nat, p: string): nat
    requires i <= |s|
    decreases |s| - i
  {
    if i == |s| then 0 else (if OccursAt(s, i, p) then 1 else 0) + OccurrencesFrom(s, i + 1, p)
  }

  /** Inside an occurrence of a pattern whose first character does not recur, no other occurrence starts. */
  lemma {:induction false} NoOccurrenceInside(s: string, i: nat, j: nat, p: string)
    requires p != [] && p[0] !in p[1..] && OccursAt(s, i, p) && i < j <= i + |p|
    ensures OccurrencesFrom(s, j, p) == OccurrencesFrom(s, i + |p|, p)
    decreases i + |p| - j
  {
    if j < i + |p| {
      assert s[j] == p[j - i] && p[j - i] == p[1..][j - i - 1];
      assert !OccursAt(s, j, p);
      NoOccurrenceInside(s, i, j + 1, p);
    }
  }

  /**
    For a literal pattern whose first character does not recur in it, occurrences cannot overlap,
    so a global scan finds every one of them.
  */
  lemma {:induction false} LiteralCount(s: string, i: nat, p: string)
    requires i <= |s| && p != [] && p[0] !in p[1..]
    ensures CountFrom(s, i, Literal(p)) == OccurrencesFrom(s, i, p)
    decreases |s| - i
  {
    if i < |s| {
      if OccursAt(s, i, p) {
        assert MatchAt(s, i, Literal(p)) == |p|;
        LiteralCount(s, i + |p|, p);
        NoOccurrenceInside(s, i, i + 1, p);
      } else {
        assert MatchAt(s, i, Literal(p)) == 0;
        LiteralCount(s, i + 1, p);
      }
    }
  }

  /** Whether the scan started at `i` arrives at position `k` (rather than jumping over it inside a match). */
  predicate Lands(s: string, i: nat, k: nat, m: Matcher)
    requires i <= |s|
    decreases |s| - i
  {
    i == k || (i < k && i < |s| &&
      var n := MatchAt(s, i, m);
      Lands(s, if n > 0 then i + n else i + 1, k, m))
  }

  /** The output the scan started at `i` writes before it reaches `k`. */
  function ReplaceBetween(s: string, i: nat, k: nat, m: Matcher, rep: string -> string): string
    requires i <= |s|
    decreases |s| - i
  {
    if k <= i || i == |s| then []
    else
      var n := MatchAt(s, i, m);
      if n > 0 then rep(s[i..i + n]) + ReplaceBetween(s, i + n, k, m, rep)
      else [s[i]] + ReplaceBetween(s, i + 1, k, m, rep)
  }

  // ---------------------------------------------------------------- properties of the scan

  /** Where no match starts, a global replace changes nothing. */
  lemma {:induction false} NoMatchKeeps(s: string, i: nat, m: Matcher, rep: string -> string)
    requires i <= |s|
    requires forall j :: i <= j < |s| ==> MatchAt(s, j, m) == 0
    ensures ReplaceFrom(s, i, m, rep) == s[i..]
    decreases |s| - i
  {
    if i < |s| {
      NoMatchKeeps(s, i + 1, m, rep);
      assert s[i..] == [s[i]] + s[i + 1..];
    }
  }

  /** A global replace of a literal pattern by itself changes nothing (the `quotes` rewrites). */
  lemma LiteralSelfKeeps(s: string, p: string)
    ensures ReplaceLiteral(s, p, p) == s
  {
    SelfLiteralFrom(s, 0, p);
  }

  lemma {:induction false} SelfLiteralFrom(s: string, i: nat, p: string)
    requires i <= |s|
    ensures ReplaceFrom(s, i, Literal(p), Const(p)) == s[i..]
    decreases |s| - i
  {
    if i < |s| {
      var n := MatchAt(s, i, Literal(p));
      if n > 0 {
        SelfLiteralFrom(s, i + n, p);
        assert s[i..i + n] == p;
        assert s[i..] == s[i..i + n] + s[i + n..];
      } else {
        SelfLiteralFrom(s, i + 1, p);
        assert s[i..] == [s[i]] + s[i + 1..];
      }
    }
  }

  /** A scan that lands on `k` writes its output before `k`, then carries on from `k`. */
  lemma {:induction false} ReplaceSplit(s: string, i: nat, k: nat, m: Matcher, rep: string -> string)
    requires i <= k <= |s| && Lands(s, i, k, m)
    ensures ReplaceFrom(s, i, m, rep) == ReplaceBetween(s, i, k, m, rep) + ReplaceFrom(s, k, m, rep)
    decreases |s| - i
  {
    if i < k {
      var n := MatchAt(s, i, m);
      var j := if n > 0 then i + n else i + 1;
      assert Lands(s, j, k, m);
      ReplaceSplit(s, j, k, m, rep);
      ScanStep(s, i, k, m, rep, j);
      var head := if n > 0 then rep(s[i..j]) else [s[i]];
      Regroup3(head, ReplaceBetween(s, j, k, m, rep), ReplaceFrom(s, k, m, rep));
    }
  }

  lemma Regroup3(a: string, b: string, c: string)
    ensures a + (b + c) == (a + b) + c
  {
  }

  /** One step of the scan, for the output to the end and for the output before `k` alike. */
  lemma ScanStep(s: string, i: nat, k: nat, m: Matcher, rep: string -> string, j: nat)
    requires i < k <= |s| && j == (if MatchAt(s, i, m) > 0 then i + MatchAt(s, i, m) else i + 1)
    ensures j <= |s|
    ensures var head := if MatchAt(s, i, m) > 0 then rep(s[i..j]) else [s[i]];
      ReplaceFrom(s, i, m, rep) == head + ReplaceFrom(s, j, m, rep) &&
      ReplaceBetween(s, i, k, m, rep) == head + ReplaceBetween(s, j, k, m, rep)
  {
  }

  /** A scan lands on `k` when no match starting before `k` reaches past it. */
  lemma {:induction false} NoStraddleLands(s: string, i: nat, k: nat, m: Matcher)
    requires i <= k <= |s|
    requires forall j :: i <= j < k ==> j + MatchAt(s, j, m) <= k
    ensures Lands(s, i, k, m)
    decreases |s| - i
  {
    if i < k {
      var n := MatchAt(s, i, m);
      NoStraddleLands(s, if n > 0 then i + n else i + 1, k, m);
    }
  }

  /** A match on which the scan lands is replaced, and the scan resumes right after it. */
  lemma MatchReplaced(s: string, k: nat, n: nat, m: Matcher, rep: string -> string)
    requires k <= |s| && Lands(s, 0, k, m) && n == MatchAt(s, k, m) > 0
    ensures ReplaceGlobal(s, m, rep) == ReplaceBetween(s, 0, k, m, rep) + rep(s[k..k + n]) + ReplaceFrom(s, k + n, m, rep)
  {
    ReplaceSplit(s, 0, k, m, rep);
  }

  // ---------------------------------------------------------------- searching forward

  /** `s.indexOf(c, k)`: the first position at or after `k` holding `c`, or `|s|` where there is none. */
  function FindChar(s: string, k: nat, c: char): (r: nat)
    requires k <= |s|
    ensures k <= r <= |s|
    ensures r < |s| ==> s[r] == c
    ensures forall j :: k <= j < r ==> s[j] != c
    decreases |s| - k
  {
    if k == |s| then |s| else if s[k] == c then k else FindChar(s, k + 1, c)
  }

  /** Starting the search later, but not past the first hit, finds the same position. */
  lemma {:induction false} FindCharLater(s: string, k: nat, k': nat, c: char)
    requires k <= |s| && k <= k' <= FindChar(s, k, c)
    ensures FindChar(s, k', c) == FindChar(s, k, c)
    decreases |s| - k'
  {
    if k' < FindChar(s, k, c) {
      FindCharLater(s, k, k' + 1, c);
    }
  }

  /** `s.indexOf(p, k)`: the first position at or after `k` where `p` occurs, or `|s|` where it does not. */
  function Find(s: string, k: nat, p: string): (r: nat)
    requires k <= |s|
    ensures k <= r <= |s|
    ensures r < |s| ==> OccursAt(s, r, p)
    ensures forall j :: k <= j < r ==> !OccursAt(s, j, p)
    decreases |s| - k
  {
    if k == |s| then |s| else if OccursAt(s, k, p) then k else Find(s, k + 1, p)
  }

  lemma {:induction false} FindLater(s: string, k: nat, k': nat, p: string)
    requires k <= |s| && k <= k' <= Find(s, k, p)
    ensures Find(s, k', p) == Find(s, k, p)
    decreases |s| - k'
  {
    if k' < Find(s, k, p) {
      FindLater(s, k, k' + 1, p);
    }
  }

  /** The end of the run of whitespace starting at `k`: the first position at or after `k` that is not `\s`. */
  function SkipSpaces(s: string, k: nat): (r: nat)
    requires k <= |s|
    ensures k <= r <= |s|
    ensures r < |s| ==> !IsSpace(s[r])
    ensures forall j :: k <= j < r ==> IsSpace(s[j])
    decreases |s| - k
  {
    if k == |s| || !IsSpace(s[k]) then k else SkipSpaces(s, k + 1)
  }

  /** A character that `p` does not contain lies outside every occurrence of `p` that starts at or before it. */
  lemma CharPastPattern(s: string, j: nat, p: string, c: char, e: nat)
    requires OccursAt(s, j, p) && c !in p && j <= e < |s| && s[e] == c
    ensures j + |p| <= e
  {
    forall x | j <= x < j + |p| ensures s[x] != c {
      assert s[x] == s[j..j + |p|][x - j] == p[x - j];
    }
  }

  // ---------------------------------------------------------------- removing every match

  /** Character `k` lies inside a match that starts at or before it. */
  predicate Covered(s: string, k: nat, m: Matcher)
  {
    exists j :: 0 <= j <= k && k < j + MatchAt(s, j, m)
  }

  /** The characters of `s` from `k` on that lie inside no match, in order. */
  function Uncovered(s: string, k: nat, m: Matcher): string
    requires k <= |s|
    decreases |s| - k
  {
    if k == |s| then [] else (if Covered(s, k, m) then [] else [s[k]]) + Uncovered(s, k + 1, m)
  }

  /** A match that starts inside another one ends within it. */
  predicate NestedClosed(s: string, m: Matcher)
  {
    forall i, j :: 0 <= i < j < |s| && j < i + MatchAt(s, i, m) ==> j + MatchAt(s, j, m) <= i + MatchAt(s, i, m)
  }

  /** No match starts inside another one. */
  predicate NoOverlap(s: string, m: Matcher)
  {
    forall i, j :: 0 <= i < j < |s| && j < i + MatchAt(s, i, m) ==> MatchAt(s, j, m) == 0
  }

  /** Every match that starts before `i` has ended by `i`. */
  predicate Settled(s: string, i: nat, m: Matcher)
  {
    forall j :: 0 <= j < i ==> j + MatchAt(s, j, m) <= i
  }

  /**
    When matches nest, a global replace by the empty string deletes exactly the characters that
    lie inside some match of the input and keeps every other character in order.
  */
  lemma RemoveMatches(s: string, m: Matcher)
    requires NestedClosed(s, m)
    ensures ReplaceGlobal(s, m, Const("")) == Uncovered(s, 0, m)
  {
    RemoveFrom(s, 0, m);
  }

  lemma {:induction false} RemoveFrom(s: string, i: nat, m: Matcher)
    requires i <= |s| && NestedClosed(s, m) && Settled(s, i, m)
    ensures ReplaceFrom(s, i, m, Const("")) == Uncovered(s, i, m)
    decreases |s| - i
  {
    if i < |s| {
      var n := MatchAt(s, i, m);
      if n > 0 {
        SettledPastMatch(s, i, m);
        RemoveFrom(s, i + n, m);
        CoveredRun(s, i, i, m);
        DeleteMatchStep(s, i, m);
      } else {
        SettledPastChar(s, i, m);
        RemoveFrom(s, i + 1, m);
        ReplaceSkipStep(s, i, m, Const(""));
      }
    }
  }

  /** A match deleted by the empty replacement leaves nothing behind. */
  lemma DeleteMatchStep(s: string, i: nat, m: Matcher)
    requires i < |s| && MatchAt(s, i, m) > 0
    ensures ReplaceFrom(s, i, m, Const("")) == ReplaceFrom(s, i + MatchAt(s, i, m), m, Const(""))
  {
    var n := MatchAt(s, i, m);
    assert Const("")(s[i..i + n]) == [];
  }

  lemma SettledPastMatch(s: string, i: nat, m: Matcher)
    requires i < |s| && NestedClosed(s, m) && Settled(s, i, m) && MatchAt(s, i, m) > 0
    ensures Settled(s, i + MatchAt(s, i, m), m)
  {
    var n := MatchAt(s, i, m);
    forall j | 0 <= j < i + n ensures j + MatchAt(s, j, m) <= i + n {
      if j > i {
        assert i < j < |s| && j < i + MatchAt(s, i, m);
      }
    }
  }

  lemma SettledPastChar(s: string, i: nat, m: Matcher)
    requires i < |s| && Settled(s, i, m) && MatchAt(s, i, m) == 0
    ensures Settled(s, i + 1, m) && !Covered(s, i, m)
    ensures Uncovered(s, i, m) == [s[i]] + Uncovered(s, i + 1, m)
  {
  }

  /** The characters of one match contribute nothing to the uncovered text. */
  lemma {:induction false} CoveredRun(s: string, i: nat, k: nat, m: Matcher)
    requires i <= k <= i + MatchAt(s, i, m) && MatchAt(s, i, m) > 0
    ensures Uncovered(s, k, m) == Uncovered(s, i + MatchAt(s, i, m), m)
    decreases i + MatchAt(s, i, m) - k
  {
    if k < i + MatchAt(s, i, m) {
      assert Covered(s, k, m);
      CoveredRun(s, i, k + 1, m);
    }
  }

  /** A scan lands on every match when no match starts inside another. */
  lemma EveryMatchLands(s: string, k: nat, m: Matcher)
    requires k <= |s| && NoOverlap(s, m) && MatchAt(s, k, m) > 0
    ensures Lands(s, 0, k, m)
  {
    forall j | 0 <= j < k ensures j + MatchAt(s, j, m) <= k {
    }
    NoStraddleLands(s, 0, k, m);
  }

  /** Where no match starts between `i` and `k`, the scan copies that stretch unchanged. */
  lemma {:induction false} BetweenKeeps(s: string, i: nat, k: nat, m: Matcher, rep: string -> string)
    requires i <= k <= |s|
    requires forall j :: i <= j < k ==> MatchAt(s, j, m) == 0
    ensures ReplaceBetween(s, i, k, m, rep) == s[i..k]
    decreases k - i
  {
    if i < k {
      BetweenKeeps(s, i + 1, k, m, rep);
      assert s[i..k] == [s[i]] + s[i + 1..k];
    }
  }

  /**
    A global replace keeps the text before the leftmost match, replaces that match, and carries on
    right after it.
  */
  lemma ReplaceGlobalFirst(s: string, m: Matcher, rep: string -> string, k: nat, n: nat)
    requires FirstMatch(s, 0, m) == Some(k) && n == MatchAt(s, k, m)
    ensures ReplaceGlobal(s, m, rep) == s[..k] + rep(s[k..k + n]) + ReplaceFrom(s, k + n, m, rep)
  {
    assert forall j :: 0 <= j < k ==> MatchAt(s, j, m) == 0;
    NoStraddleLands(s, 0, k, m);
    ReplaceSplit(s, 0, k, m, rep);
    BetweenKeeps(s, 0, k, m, rep);
    var tail := ReplaceFrom(s, k + n, m, rep);
    assert ReplaceFrom(s, k, m, rep) == rep(s[k..k + n]) + tail;
    assert ReplaceGlobal(s, m, rep) == s[..k] + (rep(s[k..k + n]) + tail);
  }

  /** `ReplaceGlobalFirst` for a leftmost match that ends at `e`. */
  lemma ReplaceGlobalFirstEnds(s: string, m: Matcher, rep: string -> string, k: nat, e: nat)
    requires FirstMatch(s, 0, m) == Some(k) && k + MatchAt(s, k, m) == e
    ensures e <= |s| && ReplaceGlobal(s, m, rep) == s[..k] + rep(s[k..e]) + ReplaceFrom(s, e, m, rep)
  {
    ReplaceGlobalFirst(s, m, rep, k, MatchAt(s, k, m));
  }

  /** `ReplaceGlobalFirst` for a leftmost match that ends at `e` and is replaced by `t`. */
  lemma ReplaceGlobalFirstWith(s: string, m: Matcher, rep: string -> string, k: nat, e: nat, t: string)
    requires FirstMatch(s, 0, m) == Some(k) && k + MatchAt(s, k, m) == e && e <= |s| && rep(s[k..e]) == t
    ensures ReplaceGlobal(s, m, rep) == s[..k] + t + ReplaceFrom(s, e, m, rep)
  {
    ReplaceGlobalFirstEnds(s, m, rep, k, e);
  }

  /** A global delete keeps the text before the leftmost match and carries on right after it. */
  lemma DeleteGlobalFirst(s: string, m: Matcher, k: nat)
    requires FirstMatch(s, 0, m) == Some(k)
    ensures k + MatchAt(s, k, m) <= |s|
    ensures ReplaceGlobal(s, m, Const("")) == s[..k] + ReplaceFrom(s, k + MatchAt(s, k, m), m, Const(""))
  {
    ReplaceGlobalFirstEnds(s, m, Const(""), k, k + MatchAt(s, k, m));
    assert Const("")(s[k..k + MatchAt(s, k, m)]) == [];
    assert s[..k] + [] == s[..k];
  }

  /** `ReplaceFirstAt` for a leftmost match that ends at `e`. */
  lemma ReplaceFirstEnds(s: string, m: Matcher, rep: string -> string, k: nat, e: nat)
    requires FirstMatch(s, 0, m) == Some(k) && k + MatchAt(s, k, m) == e
    ensures e <= |s| && ReplaceFirst(s, m, rep) == s[..k] + rep(s[k..e]) + s[e..]
  {
    ReplaceFirstAt(s, m, rep, k, MatchAt(s, k, m));
  }

  /** Without a match, a replace without `g` changes nothing. */
  lemma ReplaceFirstNone(s: string, m: Matcher, rep: string -> string)
    requires forall j :: 0 <= j < |s| ==> MatchAt(s, j, m) == 0
    ensures ReplaceFirst(s, m, rep) == s
  {
  }
}
