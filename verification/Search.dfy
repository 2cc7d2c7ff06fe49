/**
  String search: Knuth-Morris-Pratt with the optimised failure table, which is
  filled in place while it is being read.

  `pat[i]` at `i == |pat|` is the string terminator, so the last entry of the
  table compares borders against NUL.  The model keeps that: nothing below
  requires a NUL-free pattern, and `ExactIff` says for which patterns the search
  reports every occurrence.
 */
module Search {

  const NUL := '\0'

  /** What `operator[]` of a C++ string yields: the terminator at the end. */
  function At(pat: string, i: nat): char
    requires i <= |pat|
  {
    if i < |pat| then pat[i] else NUL
  }

  predicate OccursAt(str: string, pat: string, p: nat) {
    p + |pat| <= |str| && forall k :: 0 <= k < |pat| ==> pat[k] == str[p + k]
  }

  /** `b` is the length of a proper border of the first `i` characters. */
  predicate Border(pat: string, i: nat, b: int) {
    0 <= b < i <= |pat| && pat[..b] == pat[i - b..i]
  }

  /** A border after which a mismatch on `pat[i]` may still become a match. */
  predicate Usable(pat: string, i: nat, b: int) {
    Border(pat, i, b) && At(pat, b) != At(pat, i)
  }

  /** `v` is the longest usable border of the first `i` characters, -1 if none. */
  ghost predicate IsFailure(pat: string, i: nat, v: int) {
    && -1 <= v < i as int
    && (v >= 0 ==> Usable(pat, i, v))
    && forall b :: Usable(pat, i, b) ==> b <= v
  }

  // ----- borders

  lemma BorderOfBorder(pat: string, i: nat, t: int, b: int)
    requires Border(pat, i, t) && b < t
    ensures Border(pat, i, b) <==> Border(pat, t, b)
  {
  }

  lemma BorderGrows(pat: string, i: nat, b: nat)
    requires b < i < |pat|
    ensures Border(pat, i + 1, b + 1) <==> Border(pat, i, b) && pat[b] == pat[i]
  {
    assert pat[..b + 1] == pat[..b] + [pat[b]];
    assert pat[i - b..i + 1] == pat[i - b..i] + [pat[i]];
  }

  // ----- the table

  lemma {:induction false} FailureExists(pat: string, i: nat, below: nat) returns (v: int)
    requires below <= i <= |pat|
    ensures -1 <= v < below as int && (v >= 0 ==> Usable(pat, i, v))
    ensures forall b :: Usable(pat, i, b) && b < below ==> b <= v
  {
    if below == 0 || Usable(pat, i, below - 1) { return below - 1; }
    v := FailureExists(pat, i, below - 1);
  }

  /** The table's entry for `i`. */
  ghost function Failure(pat: string, i: nat): (v: int)
    requires i <= |pat|
    ensures IsFailure(pat, i, v)
  {
    assert exists v :: IsFailure(pat, i, v) by {
      var v := FailureExists(pat, i, i);
      assert IsFailure(pat, i, v);
    }
    var v :| IsFailure(pat, i, v);
    v
  }

  /** How far the search moves on after it has reported an occurrence. */
  ghost function Shift(pat: string): (d: nat)
    ensures d >= 1
  {
    |pat| - Failure(pat, |pat|)
  }

  /**
    The table loop's state: `t` is a border of the first `i` characters (or -1),
    and no longer border agrees with `pat[i]`.
   */
  ghost predicate Building(pat: string, i: nat, t: int) {
    && -1 <= t < i as int <= |pat|
    && (t >= 0 ==> Border(pat, i, t))
    && (i < |pat| ==> forall b :: Border(pat, i, b) && t < b ==> pat[b] != pat[i])
  }

  /** `t` is the longest proper border of the first `i` characters. */
  ghost predicate IsLongest(pat: string, i: nat, t: int) {
    Border(pat, i, t) && forall b :: Border(pat, i, b) ==> b <= t
  }

  /** The shortcut `t = next[t]` skips no border that could be extended. */
  lemma ShortcutSkipsNothing(pat: string, i: nat, t: int)
    requires i < |pat| && 0 <= t && Building(pat, i, t) && pat[t] != pat[i]
    ensures Building(pat, i, Failure(pat, t))
  {
    var v := Failure(pat, t);
    if v >= 0 { BorderOfBorder(pat, i, t, v); }
    forall b | Border(pat, i, b) && v < b ensures pat[b] != pat[i] {
      if b < t {
        BorderOfBorder(pat, i, t, b);
        assert !Usable(pat, t, b);
      }
    }
  }

  /** Extending the border `t` of `i` gives the longest border of `i + 1`. */
  lemma ExtensionIsLongest(pat: string, i: nat, t: int)
    requires i < |pat| && Building(pat, i, t) && (t < 0 || pat[t] == pat[i])
    ensures IsLongest(pat, i + 1, t + 1) && Building(pat, i + 1, t + 1)
  {
    if t >= 0 { BorderGrows(pat, i, t); }
    var n := i + 1;
    forall b | Border(pat, n, b) ensures b <= t + 1 {
      if b >= 1 { BorderGrows(pat, i, b - 1); }
    }
  }

  /** The entry for `i` is its longest border or, if that is unusable, that border's entry. */
  lemma OneStepSuffices(pat: string, i: nat, t: int)
    requires i <= |pat| && IsLongest(pat, i, t)
    ensures Failure(pat, i) == if pat[t] == At(pat, i) then Failure(pat, t) else t
    ensures Failure(pat, t) >= 0 ==> pat[Failure(pat, t)] != pat[t]
  {
    if pat[t] == At(pat, i) {
      forall b | b < t ensures Usable(pat, i, b) <==> Usable(pat, t, b) {
        BorderOfBorder(pat, i, t, b);
      }
    } else {
      assert Usable(pat, i, t);
    }
  }

  /** The inner loop of the table; `inner` counts the runs of its body. */
  method NextEntry(pat: string, next: array<int>, i: nat, t: int) returns (tmp: int, ghost inner: nat)
    requires i <= |pat| < next.Length && IsLongest(pat, i, t)
    requires forall k :: 0 <= k < i ==> next[k] == Failure(pat, k)
    ensures tmp == Failure(pat, i) && inner <= 1
  {
    OneStepSuffices(pat, i, t);
    tmp, inner := t, 0;
    while tmp >= 0 && pat[tmp] == At(pat, i)
      invariant tmp == if inner == 0 then t else Failure(pat, t)
      invariant inner <= if pat[t] == At(pat, i) then 1 else 0
      decreases tmp
    {
      tmp := next[tmp];
      inner := inner + 1;
    }
  }

  /** The entries up to `i` are right. */
  ghost predicate Filled(next: array<int>, pat: string, i: nat)
    reads next
    requires i <= |pat| < next.Length
  {
    forall k :: 0 <= k <= i ==> next[k] == Failure(pat, k)
  }

  /** The branch of the table loop that fills in an entry. */
  method Extend(pat: string, next: array<int>, i: nat, t: int)
    requires i < |pat| < next.Length && Building(pat, i, t) && (t < 0 || pat[t] == pat[i])
    requires Filled(next, pat, i)
    modifies next
    ensures Filled(next, pat, i + 1)
    ensures Building(pat, i + 1, t + 1)
  {
    ExtensionIsLongest(pat, i, t);
    var tmp, _ := NextEntry(pat, next, i + 1, t + 1);
    next[i + 1] := tmp;
  }

  /** The table loop; `steps` counts its iterations. */
  method BuildTable(pat: string) returns (next: array<int>, ghost steps: nat)
    ensures fresh(next) && next.Length == |pat| + 1
    ensures forall k :: 0 <= k <= |pat| ==> next[k] == Failure(pat, k)
    ensures steps <= 2 * |pat|
  {
    next := new int[|pat| + 1];
    next[0] := -1;
    var t, i := -1, 0;
    steps := 0;
    while i < |pat|
      invariant 0 <= i && Building(pat, i, t)
      invariant Filled(next, pat, i)
      invariant steps < 2 * i - t
      decreases 2 * (|pat| - i) + t
    {
      steps := steps + 1;
      if t < 0 || pat[t] == pat[i] {
        Extend(pat, next, i, t);
        i := i + 1;
        t := t + 1;
      } else {
        ShortcutSkipsNothing(pat, i, t);
        assert next[t] == Failure(pat, t);
        t := next[t];
      }
    }
  }

  // ----- the search

  /** Where `pat` occurs in `str`, as one bit per position. */
  function Hits(str: string, pat: string): (h: seq<bool>)
    ensures |h| == |str| + 1
    ensures forall p :: 0 <= p < |h| ==> h[p] == OccursAt(str, pat, p)
  {
    seq(|str| + 1, (p: nat) => OccursAt(str, pat, p))
  }

  /** The first hit from `from` on, then the first one at least `skip` further, and so on. */
  function Pick(h: seq<bool>, from: nat, skip: nat): (ps: seq<nat>)
    requires skip >= 1
    decreases |h| - from
  {
    if from >= |h| then []
    else if h[from] then [from] + Pick(h, from + skip, skip)
    else Pick(h, from + 1, skip)
  }

  /** The positions the search reports. */
  ghost function Reported(str: string, pat: string): (ps: seq<nat>) {
    Pick(Hits(str, pat), 0, Shift(pat))
  }

  /** All positions where `pat` occurs, overlapping ones included. */
  function Occurrences(str: string, pat: string): (ps: seq<nat>) {
    Pick(Hits(str, pat), 0, 1)
  }

  lemma {:induction false} PickSkipsMisses(h: seq<bool>, from: nat, n: nat, skip: nat)
    requires skip >= 1
    requires forall q :: from <= q < from + n && q < |h| ==> !h[q]
    ensures Pick(h, from, skip) == Pick(h, from + n, skip)
    decreases n
  {
    if n > 0 { PickSkipsMisses(h, from + 1, n - 1, skip); }
  }

  /** `ps` is a strictly ascending list of hits at `from` or later. */
  ghost predicate AscendingHits(h: seq<bool>, from: nat, ps: seq<nat>) {
    && (forall k :: 0 <= k < |ps| ==> from <= ps[k] < |h| && h[ps[k]])
    && (forall k, l :: 0 <= k < l < |ps| ==> ps[k] < ps[l])
  }

  lemma PickedFirst(h: seq<bool>, from: nat, later: nat, tail: seq<nat>)
    requires from < later && from < |h| && h[from] && AscendingHits(h, later, tail)
    ensures AscendingHits(h, from, [from] + tail)
  {
  }

  lemma {:induction false} PickSound(h: seq<bool>, from: nat, skip: nat)
    requires skip >= 1
    ensures AscendingHits(h, from, Pick(h, from, skip))
    decreases |h| - from
  {
    if from < |h| {
      if h[from] {
        PickSound(h, from + skip, skip);
        PickedFirst(h, from, from + skip, Pick(h, from + skip, skip));
      } else {
        PickSound(h, from + 1, skip);
      }
    }
  }

  lemma {:induction false} PickComplete(h: seq<bool>, from: nat, p: nat)
    requires from <= p < |h| && h[p]
    ensures p in Pick(h, from, 1)
    decreases p - from
  {
    if from < p { PickComplete(h, from + 1, p); }
  }

  /** `Occurrences` is exactly the naive "occurs at", in strictly ascending order. */
  lemma OccurrencesAreAll(str: string, pat: string)
    ensures AscendingHits(Hits(str, pat), 0, Occurrences(str, pat))
    ensures forall p: nat :: p in Occurrences(str, pat) <==> OccursAt(str, pat, p)
  {
    PickSound(Hits(str, pat), 0, 1);
    forall p: nat | OccursAt(str, pat, p) ensures p in Occurrences(str, pat) {
      PickComplete(Hits(str, pat), 0, p);
    }
  }

  /** Two occurrences of `pat` less than `|pat|` apart overlap in a border of `pat`. */
  lemma OverlapIsBorder(str: string, pat: string, p: nat, q: nat, j: nat)
    requires p < q <= p + j && j <= |pat|
    requires p + j <= |str| && str[p..p + j] == pat[..j] && OccursAt(str, pat, q)
    ensures Border(pat, j, p + j - q)
  {
  }

  /** An occurrence inside the window would be found through a usable border. */
  lemma LaterOccurrenceIsUsable(str: string, pat: string, i: nat, j: nat, q: nat)
    requires j < |pat| && i + |pat| <= |str| && i < q <= i + j
    requires str[i..i + j] == pat[..j] && str[i + j] != pat[j] && OccursAt(str, pat, q)
    ensures Usable(pat, j, i + j - q)
  {
  }

  /** After a mismatch at `j < |pat|` nothing occurs before the new window. */
  lemma MismatchSkipsNothing(str: string, pat: string, i: nat, j: nat)
    requires j < |pat| && i + |pat| <= |str|
    requires str[i..i + j] == pat[..j] && str[i + j] != pat[j]
    ensures forall q :: i <= q < i + j - Failure(pat, j) ==> !OccursAt(str, pat, q)
  {
    assert !OccursAt(str, pat, i) by { assert str[i..i + |pat|][j] == str[i + j]; }
    forall q | i < q < i + j - Failure(pat, j) ensures !OccursAt(str, pat, q) {
      if OccursAt(str, pat, q) { LaterOccurrenceIsUsable(str, pat, i, j, q); }
    }
  }

  /** What is known of the text after the window has moved. */
  lemma WindowMoves(str: string, pat: string, i: nat, j: nat)
    requires j <= |pat| && i + j <= |str| && str[i..i + j] == pat[..j]
    ensures var v := Failure(pat, j); v >= 0 ==> str[i + j - v..i + j] == pat[..v]
  {
  }

  /** The loop's state: the window at `i` agrees for `j` characters, `done` is reported. */
  ghost predicate Scanning(str: string, pat: string, i: int, j: int, done: seq<nat>) {
    && 0 <= i && -1 <= j <= |pat| && i + j <= |str|
    && (j >= 0 ==> str[i..i + j] == pat[..j])
    && done + Pick(Hits(str, pat), i, Shift(pat)) == Reported(str, pat)
  }

  lemma AgreeStep(str: string, pat: string, i: int, j: int, done: seq<nat>)
    requires Scanning(str, pat, i, j, done) && j < |pat| && i + |pat| <= |str|
    requires j < 0 || str[i + j] == pat[j]
    ensures Scanning(str, pat, i, j + 1, done)
  {
    assert j >= 0 ==> str[i..i + j + 1] == str[i..i + j] + [str[i + j]];
  }

  lemma SlideStep(str: string, pat: string, i: int, j: int, done: seq<nat>)
    requires Scanning(str, pat, i, j, done) && j >= 0 && i + |pat| <= |str|
    requires j < |pat| ==> str[i + j] != pat[j]
    ensures var v := Failure(pat, j);
            Scanning(str, pat, i + (j - v), v, if j == |pat| then done + [i] else done)
  {
    WindowMoves(str, pat, i, j);
    if j < |pat| {
      MismatchSkipsNothing(str, pat, i, j);
      PickSkipsMisses(Hits(str, pat), i, j - Failure(pat, j), Shift(pat));
    } else {
      var rest := Pick(Hits(str, pat), i + Shift(pat), Shift(pat));
      assert done + ([i] + rest) == done + [i] + rest;
    }
  }

  lemma NothingLeft(str: string, pat: string, i: nat)
    requires i + |pat| > |str|
    ensures Pick(Hits(str, pat), i, Shift(pat)) == []
  {
    if i <= |str| { PickSkipsMisses(Hits(str, pat), i, |str| + 1 - i, Shift(pat)); }
  }

  lemma ScanEnds(str: string, pat: string, i: int, j: int, done: seq<nat>)
    requires Scanning(str, pat, i, j, done) && i + |pat| > |str|
    ensures done == Reported(str, pat) && (NulSafe(pat) ==> done == Occurrences(str, pat))
  {
    NothingLeft(str, pat, i);
    SafeMeansAll(str, pat);
  }

  method FindSubstr(str: string, pat: string) returns (positions: seq<nat>, ghost steps: nat)
    ensures positions == Reported(str, pat)
    ensures NulSafe(pat) ==> positions == Occurrences(str, pat)
    ensures if |pat| <= |str| then steps <= 2 * |str| - |pat| + 1 else steps == 0
  {
    var next, _ := BuildTable(pat);
    positions := [];
    var i, j := 0, 0;
    steps := 0;
    while i + |pat| <= |str| && j <= |pat|
      invariant Scanning(str, pat, i, j, positions)
      invariant forall k :: 0 <= k <= |pat| ==> next[k] == Failure(pat, k)
      invariant steps <= 2 * i + j
      invariant steps > 0 ==> |pat| <= |str| && steps <= 2 * |str| - |pat| + 1
      decreases 2 * (|str| + 1 - i) - j
    {
      steps := steps + 1;
      if j < |pat| && (j < 0 || str[i + j] == pat[j]) {
        AgreeStep(str, pat, i, j, positions);
        j := j + 1;
      } else {
        SlideStep(str, pat, i, j, positions);
        if j == |pat| {
          positions := positions + [i];
        }
        i := i + (j - next[j]);
        j := next[j];
      }
    }
    ScanEnds(str, pat, i, j, positions);
  }

  // ----- when every occurrence is reported

  lemma {:induction false} LongestExists(pat: string, below: nat) returns (b: nat)
    requires 1 <= below <= |pat|
    ensures b < below && Border(pat, |pat|, b)
    ensures forall c :: Border(pat, |pat|, c) && c < below ==> c <= b
  {
    if Border(pat, |pat|, below - 1) { return below - 1; }
    b := LongestExists(pat, below - 1);
  }

  ghost function LongestBorder(pat: string): (b: nat)
    requires pat != []
    ensures IsLongest(pat, |pat|, b)
  {
    assert exists b: nat :: IsLongest(pat, |pat|, b) by {
      var b := LongestExists(pat, |pat|);
      assert IsLongest(pat, |pat|, b);
    }
    var b: nat :| IsLongest(pat, |pat|, b);
    b
  }

  /** The character after the longest border is not the terminator. */
  ghost predicate NulSafe(pat: string) {
    pat == [] || pat[LongestBorder(pat)] != NUL
  }

  lemma NulFreeIsSafe(pat: string)
    requires NUL !in pat
    ensures NulSafe(pat)
  {
  }

  lemma NoneInsideShift(str: string, pat: string, p: nat, q: nat)
    requires NulSafe(pat) && OccursAt(str, pat, p) && p < q < p + Shift(pat)
    ensures !OccursAt(str, pat, q)
  {
    if OccursAt(str, pat, q) {
      OverlapIsBorder(str, pat, p, q, |pat|);
      assert Usable(pat, |pat|, LongestBorder(pat));
    }
  }

  lemma {:induction false} PickAgrees(h: seq<bool>, from: nat, skip: nat)
    requires skip >= 1
    requires forall p, q :: 0 <= p < q < p + skip && q < |h| && h[p] ==> !h[q]
    ensures Pick(h, from, skip) == Pick(h, from, 1)
    decreases |h| - from
  {
    if from < |h| {
      if h[from] {
        PickAgrees(h, from + skip, skip);
        PickSkipsMisses(h, from + 1, skip - 1, 1);
      } else {
        PickAgrees(h, from + 1, skip);
      }
    }
  }

  lemma SafeMeansAll(str: string, pat: string)
    ensures NulSafe(pat) ==> Reported(str, pat) == Occurrences(str, pat)
  {
    if NulSafe(pat) {
      var h := Hits(str, pat);
      forall p, q | 0 <= p < q < p + Shift(pat) && q < |h| && h[p] ensures !h[q] {
        NoneInsideShift(str, pat, p, q);
      }
      PickAgrees(h, 0, Shift(pat));
    }
  }

  /** A text in which `pat` occurs twice, overlapping in its border `b`. */
  function Overlapped(pat: string, b: nat): string
    requires b <= |pat|
  {
    pat[..|pat| - b] + pat
  }

  lemma OverlappedTwice(pat: string, b: nat)
    requires Border(pat, |pat|, b)
    ensures OccursAt(Overlapped(pat, b), pat, 0) && OccursAt(Overlapped(pat, b), pat, |pat| - b)
  {
  }

  lemma PickMisses(h: seq<bool>, skip: nat, q: nat)
    requires h != [] && h[0] && 0 < q < skip
    ensures q !in Pick(h, 0, skip)
  {
    PickSound(h, skip, skip);
    assert Pick(h, 0, skip) == [0] + Pick(h, skip, skip);
  }

  lemma UnsafeShift(pat: string) returns (b: nat)
    requires !NulSafe(pat)
    ensures Border(pat, |pat|, b) && Shift(pat) > |pat| - b
  {
    b := LongestBorder(pat);
    assert !Usable(pat, |pat|, b);
  }

  /** `pat` occurs at `q` and the search does not say so. */
  ghost predicate Misses(str: string, pat: string, q: nat) {
    OccursAt(str, pat, q) && q !in Reported(str, pat)
  }

  lemma TwiceIsMissed(pat: string, b: nat) returns (str: string, q: nat)
    requires Border(pat, |pat|, b) && Shift(pat) > |pat| - b
    ensures Misses(str, pat, q)
  {
    str, q := Overlapped(pat, b), |pat| - b;
    OverlappedTwice(pat, b);
    PickMisses(Hits(str, pat), Shift(pat), q);
  }

  /** Every other pattern has a text in which an adjacent or overlapping occurrence is missed. */
  lemma UnsafeMisses(pat: string) returns (str: string, q: nat)
    requires !NulSafe(pat)
    ensures Misses(str, pat, q)
  {
    var b := UnsafeShift(pat);
    str, q := TwiceIsMissed(pat, b);
  }

  /** The search lists every occurrence in every text exactly for these patterns. */
  lemma ExactIff(pat: string)
    ensures (forall str :: Reported(str, pat) == Occurrences(str, pat)) <==> NulSafe(pat)
  {
    if NulSafe(pat) {
      forall str ensures Reported(str, pat) == Occurrences(str, pat) {
        SafeMeansAll(str, pat);
      }
    } else {
      var str, q := UnsafeMisses(pat);
      OccurrencesAreAll(str, pat);
    }
  }

  /** The one-character pattern NUL is reported only at every other position. */
  lemma NulPatternExample()
    ensures Reported([NUL, NUL], [NUL]) == [0]
    ensures Occurrences([NUL, NUL], [NUL]) == [0, 1]
  {
    assert !Usable([NUL], 1, 0);
    var h := Hits([NUL, NUL], [NUL]);
    assert OccursAt([NUL, NUL], [NUL], 0) && OccursAt([NUL, NUL], [NUL], 1);
    assert h == [true, true, false];
    assert Pick(h, 3, 1) == [];
    assert Pick(h, 2, 1) == [] == Pick(h, 2, 2);
    assert Pick(h, 1, 1) == [1];
  }

  /** The empty pattern is reported at every position, the end included. */
  lemma EmptyPatternEverywhere(str: string)
    ensures Reported(str, []) == Occurrences(str, [])
    ensures forall p: nat :: p in Reported(str, []) <==> p <= |str|
  {
    SafeMeansAll(str, []);
    OccurrencesAreAll(str, []);
    forall p: nat ensures OccursAt(str, [], p) <==> p <= |str| {
    }
  }
}
