/**
  Splitting a string at the reported occurrences of a separator.
 */
module Splitting {

  import opened Search

  /** `substr(start, count)`; a negative count wraps and means "to the end". */
  function Substr(s: string, start: nat, count: int): string
    requires start <= |s|
  {
    if count < 0 || start + count > |s| then s[start..] else s[start..start + count]
  }

  ghost predicate CutsFit(str: string, cuts: seq<nat>, len: nat) {
    forall k :: 0 <= k < |cuts| ==> cuts[k] + len <= |str|
  }

  /** The pieces of `str` from `start` on when it is cut, `len` characters at a time, at `cuts`. */
  function Pieces(str: string, cuts: seq<nat>, len: nat, start: nat): (ps: seq<string>)
    requires start <= |str| && CutsFit(str, cuts, len)
    ensures |ps| == |cuts| + 1
  {
    if cuts == [] then [str[start..]]
    else [Substr(str, start, cuts[0] - start)] + Pieces(str, cuts[1..], len, cuts[0] + len)
  }

  lemma ReportedFit(str: string, sep: string)
    ensures CutsFit(str, Reported(str, sep), |sep|)
    ensures CutsFit(str, Occurrences(str, sep), |sep|)
  {
    PickSound(Hits(str, sep), 0, Shift(sep));
    PickSound(Hits(str, sep), 0, 1);
  }

  lemma PiecesFrom(str: string, cuts: seq<nat>, len: nat, start: nat, i: nat)
    requires start <= |str| && i < |cuts| && CutsFit(str, cuts, len)
    ensures Pieces(str, cuts[i..], len, start)
         == [Substr(str, start, cuts[i] - start)] + Pieces(str, cuts[i + 1..], len, cuts[i] + len)
  {
  }

  method SplitString(str: string, breaking: string) returns (splits: seq<string>)
    ensures CutsFit(str, Reported(str, breaking), |breaking|)
    ensures splits == Pieces(str, Reported(str, breaking), |breaking|, 0)
    ensures Splitter(breaking) ==> IsSplit(str, breaking, splits)
  {
    var breakpoints, _ := FindSubstr(str, breaking);
    ReportedFit(str, breaking);
    PiecesAreSplit(str, breaking);
    ghost var all := Pieces(str, breakpoints, |breaking|, 0);
    splits := [];
    var curStart := 0;
    for i := 0 to |breakpoints|
      invariant 0 <= curStart <= |str|
      invariant splits + Pieces(str, breakpoints[i..], |breaking|, curStart) == all
    {
      PiecesFrom(str, breakpoints, |breaking|, curStart, i);
      splits := splits + [Substr(str, curStart, breakpoints[i] - curStart)];
      curStart := breakpoints[i] + |breaking|;
    }
    assert breakpoints[|breakpoints|..] == [];
    assert str[curStart..|str|] == str[curStart..];
    splits := splits + [Substr(str, curStart, |str| - curStart)];
  }

  // ----- joining the pieces again

  function Join(ps: seq<string>, sep: string): string {
    if ps == [] then []
    else if |ps| == 1 then ps[0]
    else ps[0] + sep + Join(ps[1..], sep)
  }

  /** The cuts leave room for one another: none starts inside the one before. */
  ghost predicate Spaced(cuts: seq<nat>, len: nat, start: nat) {
    cuts == [] || (start <= cuts[0] && Spaced(cuts[1..], len, cuts[0] + len))
  }

  /** Joining gives the string back, or something longer if two cuts overlap. */
  lemma {:induction false} JoinPieces(str: string, sep: string, cuts: seq<nat>, start: nat)
    requires start <= |str| && CutsFit(str, cuts, |sep|)
    requires forall k :: 0 <= k < |cuts| ==> OccursAt(str, sep, cuts[k])
    ensures var joined := Join(Pieces(str, cuts, |sep|, start), sep);
            if Spaced(cuts, |sep|, start) then joined == str[start..] else |joined| > |str| - start
  {
    var ps := Pieces(str, cuts, |sep|, start);
    if cuts != [] {
      var c := cuts[0];
      JoinPieces(str, sep, cuts[1..], c + |sep|);
      assert ps[1..] == Pieces(str, cuts[1..], |sep|, c + |sep|);
      if start <= c {
        assert str[start..c] + str[c..c + |sep|] + str[c + |sep|..] == str[start..];
      }
    }
  }

  /** Splitting `str` at `sep` and joining the pieces again restores it. */
  ghost predicate Survives(str: string, sep: string) {
    var cuts := Reported(str, sep);
    CutsFit(str, cuts, |sep|) && Join(Pieces(str, cuts, |sep|, 0), sep) == str
  }

  lemma SurvivesIff(str: string, sep: string)
    ensures Survives(str, sep) <==> Spaced(Reported(str, sep), |sep|, 0)
  {
    ReportedFit(str, sep);
    PickSound(Hits(str, sep), 0, Shift(sep));
    JoinPieces(str, sep, Reported(str, sep), 0);
  }

  lemma {:induction false} PickSpaced(h: seq<bool>, from: nat, start: nat, skip: nat, len: nat)
    requires skip >= 1 && len <= skip && start <= from
    ensures Spaced(Pick(h, from, skip), len, start)
    decreases |h| - from
  {
    if from < |h| {
      if h[from] {
        PickSpaced(h, from + skip, from + len, skip, len);
      } else {
        PickSpaced(h, from + 1, start, skip, len);
      }
    }
  }

  lemma PickedTooClose(h: seq<bool>, d: nat, len: nat)
    requires 1 <= d < len && d < |h| && h[0] && h[d]
    ensures !Spaced(Pick(h, 0, d), len, 0)
  {
  }

  lemma CloseShiftBreaks(sep: string)
    requires Shift(sep) < |sep|
    ensures !Survives(Overlapped(sep, Failure(sep, |sep|)), sep)
  {
    var b := Failure(sep, |sep|);
    var str := Overlapped(sep, b);
    OverlappedTwice(sep, b);
    PickedTooClose(Hits(str, sep), Shift(sep), |sep|);
    SurvivesIff(str, sep);
  }

  lemma WideShiftKeeps(str: string, sep: string)
    requires Shift(sep) >= |sep|
    ensures Survives(str, sep)
  {
    PickSpaced(Hits(str, sep), 0, 0, Shift(sep), |sep|);
    SurvivesIff(str, sep);
  }

  /** Every string survives exactly if `sep` cannot be reported twice within its own length. */
  lemma AllSurviveIff(sep: string)
    ensures (forall str :: Survives(str, sep)) <==> Shift(sep) >= |sep|
  {
    if Shift(sep) >= |sep| {
      forall str ensures Survives(str, sep) { WideShiftKeeps(str, sep); }
    } else {
      CloseShiftBreaks(sep);
    }
  }

  /** The separator "aa" is reported twice in "aaa", and joining gives a longer string. */
  lemma OverlapExample()
    ensures Shift("aa") == 1 && !Survives("aaa", "aa")
  {
    var sep := "aa";
    assert sep[..1] == sep[1..];
    assert Usable(sep, 2, 1);
    CloseShiftBreaks(sep);
    assert Overlapped(sep, 1) == "aaa";
  }

  // ----- separators that never overlap themselves

  /** CRLF, a space and a comma with a space are of this kind. */
  ghost predicate Splitter(sep: string) {
    sep != [] && sep[0] != NUL && forall b :: Border(sep, |sep|, b) ==> b == 0
  }

  lemma NoOverlap(s: string, sep: string, p: nat, q: nat)
    requires Splitter(sep) && OccursAt(s, sep, p) && OccursAt(s, sep, q) && p < q
    ensures p + |sep| <= q
  {
    if q < p + |sep| {
      assert s[p..p + |sep|] == sep[..|sep|];
      OverlapIsBorder(s, sep, p, q, |sep|);
    }
  }

  ghost predicate Free(s: string, sep: string) {
    forall q: nat :: !OccursAt(s, sep, q)
  }

  ghost predicate AllFree(ps: seq<string>, sep: string) {
    forall k :: 0 <= k < |ps| ==> Free(ps[k], sep)
  }

  /** `ps` is the string taken apart: no piece holds `sep`, and joining gives `s` back. */
  ghost predicate IsSplit(s: string, sep: string, ps: seq<string>) {
    ps != [] && AllFree(ps, sep) && Join(ps, sep) == s
  }

  lemma OccursInPart(s: string, sep: string, from: nat, to: nat, q: nat)
    requires from <= to <= |s|
    ensures OccursAt(s[from..to], sep, q) <==> from + q + |sep| <= to && OccursAt(s, sep, from + q)
  {
  }

  lemma FreePart(s: string, sep: string, from: nat, to: nat)
    requires from <= to <= |s|
    requires forall q :: from <= q < to ==> !OccursAt(s, sep, q)
    requires sep != []
    ensures Free(s[from..to], sep)
  {
    forall q: nat ensures !OccursAt(s[from..to], sep, q) {
      OccursInPart(s, sep, from, to, q);
    }
  }

  /** The first picked position is the first hit, and the others are picked after it. */
  lemma {:induction false} PickHead(h: seq<bool>, from: nat)
    ensures var ps := Pick(h, from, 1);
            if ps == [] then forall q :: from <= q < |h| ==> !h[q]
            else from <= ps[0] < |h| && h[ps[0]] && (forall q :: from <= q < ps[0] ==> !h[q])
                 && ps[1..] == Pick(h, ps[0] + 1, 1)
    decreases |h| - from
  {
    if from < |h| && !h[from] { PickHead(h, from + 1); }
  }

  lemma PickPastSeparator(str: string, sep: string, c: nat)
    requires Splitter(sep) && OccursAt(str, sep, c)
    ensures Pick(Hits(str, sep), c + 1, 1) == Pick(Hits(str, sep), c + |sep|, 1)
  {
    var h := Hits(str, sep);
    forall q | c < q < c + |sep| && q < |h| ensures !h[q] {
      if h[q] { NoOverlap(str, sep, c, q); }
    }
    PickSkipsMisses(h, c + 1, |sep| - 1, 1);
  }

  lemma HitsUntilFirstCut(str: string, sep: string, start: nat, cuts: seq<nat>)
    requires Splitter(sep) && start <= |str| && cuts == Pick(Hits(str, sep), start, 1)
    ensures cuts == [] ==> forall q :: start <= q < |str| ==> !OccursAt(str, sep, q)
    ensures cuts != [] ==> start <= cuts[0] && forall q :: start <= q < cuts[0] ==> !OccursAt(str, sep, q)
    ensures cuts != [] ==> cuts[1..] == Pick(Hits(str, sep), cuts[0] + |sep|, 1)
  {
    var h := Hits(str, sep);
    PickHead(h, start);
    assert forall q :: start <= q < (if cuts == [] then |str| else cuts[0]) ==> !h[q];
    if cuts != [] { PickPastSeparator(str, sep, cuts[0]); }
  }

  lemma AllFreeCons(p: string, ps: seq<string>, sep: string)
    requires Free(p, sep) && AllFree(ps, sep)
    ensures AllFree([p] + ps, sep)
  {
  }

  lemma {:induction false} PiecesFree(str: string, sep: string, start: nat, cuts: seq<nat>)
    requires Splitter(sep) && start <= |str| && CutsFit(str, cuts, |sep|)
    requires cuts == Pick(Hits(str, sep), start, 1)
    ensures AllFree(Pieces(str, cuts, |sep|, start), sep) && Spaced(cuts, |sep|, start)
    decreases |cuts|
  {
    HitsUntilFirstCut(str, sep, start, cuts);
    if cuts == [] {
      FreePart(str, sep, start, |str|);
      assert str[start..|str|] == str[start..];
    } else {
      var c := cuts[0];
      FreePart(str, sep, start, c);
      PiecesFree(str, sep, c + |sep|, cuts[1..]);
      AllFreeCons(str[start..c], Pieces(str, cuts[1..], |sep|, c + |sep|), sep);
    }
  }

  lemma PiecesAreSplit(str: string, sep: string)
    ensures CutsFit(str, Reported(str, sep), |sep|)
    ensures Splitter(sep) ==> IsSplit(str, sep, Pieces(str, Reported(str, sep), |sep|, 0))
  {
    ReportedFit(str, sep);
    if Splitter(sep) {
      SafeMeansAll(str, sep);
      PiecesFree(str, sep, 0, Reported(str, sep));
      SurvivesIff(str, sep);
    }
  }

  /** Where the first separator of a joined list stands. */
  lemma JoinHead(ps: seq<string>, sep: string)
    requires |ps| >= 2
    ensures |Join(ps, sep)| >= |ps[0]| + |sep| && OccursAt(Join(ps, sep), sep, |ps[0]|)
    ensures Join(ps, sep)[..|ps[0]|] == ps[0]
    ensures Join(ps, sep)[|ps[0]| + |sep|..] == Join(ps[1..], sep)
  {
  }

  lemma FirstPieceNotLonger(s: string, sep: string, n: nat, m: nat)
    requires Splitter(sep) && OccursAt(s, sep, n) && OccursAt(s, sep, m) && Free(s[..m], sep)
    ensures m <= n
  {
    OccursInPart(s, sep, 0, m, n);
    if n < m { NoOverlap(s, sep, n, m); }
  }

  lemma SameHead(sep: string, ps: seq<string>, qs: seq<string>)
    requires Splitter(sep) && IsSplit(Join(qs, sep), sep, ps) && IsSplit(Join(qs, sep), sep, qs)
    requires |ps| >= 2 && |qs| >= 2
    ensures ps[0] == qs[0] && Join(ps[1..], sep) == Join(qs[1..], sep)
  {
    var s := Join(qs, sep);
    JoinHead(ps, sep);
    JoinHead(qs, sep);
    FirstPieceNotLonger(s, sep, |ps[0]|, |qs[0]|);
    FirstPieceNotLonger(s, sep, |qs[0]|, |ps[0]|);
  }

  /** There is only one way to take a string apart. */
  lemma {:induction false} SplitUnique(sep: string, ps: seq<string>, qs: seq<string>)
    requires Splitter(sep) && IsSplit(Join(qs, sep), sep, ps) && IsSplit(Join(qs, sep), sep, qs)
    ensures ps == qs
  {
    if |ps| >= 2 { JoinHead(ps, sep); }
    if |qs| >= 2 { JoinHead(qs, sep); }
    if |ps| >= 2 && |qs| >= 2 {
      SameHead(sep, ps, qs);
      SplitUnique(sep, ps[1..], qs[1..]);
      assert ps == [ps[0]] + ps[1..] && qs == [qs[0]] + qs[1..];
    }
  }

  ghost function Split(s: string, sep: string): (ps: seq<string>)
    requires Splitter(sep)
    ensures IsSplit(s, sep, ps)
  {
    PiecesAreSplit(s, sep);
    var ps :| IsSplit(s, sep, ps);
    ps
  }

  lemma SplitJoin(ps: seq<string>, sep: string)
    requires Splitter(sep) && ps != [] && AllFree(ps, sep)
    ensures Split(Join(ps, sep), sep) == ps
  {
    SplitUnique(sep, Split(Join(ps, sep), sep), ps);
  }

  // ----- the first occurrence

  /** `p` is the first position where `sep` occurs, -1 if there is none. */
  ghost predicate IsFirst(s: string, sep: string, p: int) {
    && -1 <= p
    && (p >= 0 ==> OccursAt(s, sep, p))
    && forall q: nat :: OccursAt(s, sep, q) ==> 0 <= p <= q
  }

  lemma OccurrencesHead(s: string, sep: string)
    ensures var ps := Occurrences(s, sep); IsFirst(s, sep, if ps == [] then -1 else ps[0])
  {
    var h := Hits(s, sep);
    var ps := Occurrences(s, sep);
    PickHead(h, 0);
    forall q: nat | OccursAt(s, sep, q) ensures ps != [] && ps[0] <= q {
      assert h[q];
    }
  }

  ghost function First(s: string, sep: string): (p: int)
    ensures IsFirst(s, sep, p)
  {
    OccurrencesHead(s, sep);
    var p :| IsFirst(s, sep, p);
    p
  }

  lemma FirstUnique(s: string, sep: string, p: int)
    requires IsFirst(s, sep, p)
    ensures First(s, sep) == p
  {
  }

  /** Appending to a string does not move its first occurrence. */
  lemma FirstStable(s: string, sep: string, more: string)
    requires First(s, sep) >= 0
    ensures First(s + more, sep) == First(s, sep)
  {
    var p := First(s, sep);
    OccursInPart(s + more, sep, 0, |s|, p);
    assert (s + more)[0..|s|] == s;
    forall q: nat | OccursAt(s + more, sep, q) ensures p <= q {
      OccursInPart(s + more, sep, 0, |s|, q);
    }
    FirstUnique(s + more, sep, p);
  }
}
