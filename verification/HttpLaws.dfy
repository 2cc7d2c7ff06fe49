/** What the request parser and printer do for each other. */
module HttpLaws {

  import opened Basics
  import opened Search
  import opened Splitting
  import opened HttpTables
  import opened Http

  // ----- line breaks

  predicate BreakAt(s: string, q: nat) {
    q + 1 < |s| && s[q] == '\r' && s[q + 1] == '\n'
  }

  ghost predicate NoBreak(s: string) {
    forall q: nat :: !BreakAt(s, q)
  }

  lemma BreakIsCrlf(s: string, q: nat)
    ensures OccursAt(s, CRLF, q) <==> BreakAt(s, q)
  {
    assert CRLF[0] == '\r' && CRLF[1] == '\n';
  }

  lemma NoBreakIsFree(s: string)
    ensures NoBreak(s) <==> Free(s, CRLF)
  {
    forall q: nat ensures OccursAt(s, CRLF, q) <==> BreakAt(s, q) { BreakIsCrlf(s, q); }
  }

  lemma DoubleBreak(s: string, q: nat)
    ensures OccursAt(s, CRLF_CRLF, q) <==> BreakAt(s, q) && BreakAt(s, q + 2)
  {
    assert CRLF_CRLF[0] == '\r' && CRLF_CRLF[1] == '\n' && CRLF_CRLF[2] == '\r' && CRLF_CRLF[3] == '\n';
  }

  /** Strings on both sides of a space (or of any text without line break characters) do not form a break. */
  lemma NoBreakAround(a: string, mid: string, b: string)
    requires NoBreak(a) && NoBreak(b) && mid != [] && '\r' !in mid && '\n' !in mid
    ensures NoBreak(a + mid + b)
  {
    var s := a + mid + b;
    forall q: nat ensures !BreakAt(s, q) {
      if q + 1 < |a| {
        assert BreakAt(s, q) ==> BreakAt(a, q);
      } else if q + 1 < |a| + |mid| {
        assert s[q + 1] == mid[q + 1 - |a|] && mid[q + 1 - |a|] in mid;
      } else if q < |a| + |mid| {
        assert s[q] == mid[q - |a|] && mid[q - |a|] in mid;
      } else {
        ShiftedBreak(a + mid, b, q - |a| - |mid|);
      }
    }
  }

  lemma PlainNoBreak(s: string)
    requires '\r' !in s
    ensures NoBreak(s)
  {
  }

  // ----- where the head ends

  /** Lines that can be told apart again: no break inside, and none but the first empty. */
  ghost predicate WellFormed(lines: seq<string>) {
    && lines != []
    && (forall k :: 0 <= k < |lines| ==> NoBreak(lines[k]))
    && (forall k :: 1 <= k < |lines| ==> lines[k] != [])
  }

  lemma {:induction false} TerminatedIsJoin(lines: seq<string>)
    requires lines != []
    ensures Terminated(lines) == Join(lines, CRLF) + CRLF
  {
    if |lines| == 1 {
      assert Terminated(lines[1..]) == [];
    } else {
      TerminatedIsJoin(lines[1..]);
      assert lines[0] + CRLF + (Join(lines[1..], CRLF) + CRLF) == lines[0] + CRLF + Join(lines[1..], CRLF) + CRLF;
    }
  }

  /** A line and its break, followed by text that does not start with a break. */
  lemma NoDoubleInFirst(line: string, rest: string, q: nat)
    requires NoBreak(line) && !BreakAt(rest, 0) && q < |line| + 2
    ensures var t := line + CRLF + rest; !(BreakAt(t, q) && BreakAt(t, q + 2))
  {
    var t := line + CRLF + rest;
    assert t[|line|] == '\r' && t[|line| + 1] == '\n';
    if q + 1 < |line| {
      assert BreakAt(t, q) ==> BreakAt(line, q);
    } else if q == |line| {
      ShiftedBreak(line + CRLF, rest, 0);
    }
  }

  lemma StartsPlain(line: string, rest: string)
    requires NoBreak(line) && line != []
    ensures !BreakAt(line + CRLF + rest, 0)
  {
    assert (line + CRLF + rest)[|line|] == '\r';
    assert BreakAt(line + CRLF + rest, 0) && |line| >= 2 ==> BreakAt(line, 0);
  }

  lemma {:induction false} NoDoubleInside(lines: seq<string>, rest: string, q: nat)
    requires WellFormed(lines) && q + 2 < |Terminated(lines)|
    ensures var t := Terminated(lines) + (CRLF + rest); !(BreakAt(t, q) && BreakAt(t, q + 2))
    decreases lines
  {
    var t := Terminated(lines) + (CRLF + rest);
    var line := lines[0];
    var later := Terminated(lines[1..]) + (CRLF + rest);
    assert t == line + CRLF + later;
    if |lines| == 1 {
      assert q < |line|;
      NoDoubleAtEnd(line, later, q);
    } else if q < |line| + 2 {
      assert later == lines[1] + CRLF + (Terminated(lines[2..]) + (CRLF + rest)) by {
        assert lines[1..][1..] == lines[2..];
      }
      StartsPlain(lines[1], Terminated(lines[2..]) + (CRLF + rest));
      NoDoubleInFirst(line, later, q);
    } else {
      NoDoubleInside(lines[1..], rest, q - |line| - 2);
      ShiftedBreak(line + CRLF, later, q - |line| - 2);
      ShiftedBreak(line + CRLF, later, q - |line|);
    }
  }

  lemma ShiftedBreak(a: string, b: string, q: nat)
    ensures BreakAt(a + b, |a| + q) <==> BreakAt(b, q)
  {
  }

  lemma NoDoubleAtEnd(line: string, later: string, q: nat)
    requires NoBreak(line) && q < |line|
    ensures !BreakAt(line + CRLF + later, q)
  {
    var t := line + CRLF + later;
    assert t[|line|] == '\r';
    assert q + 1 < |line| && BreakAt(t, q) ==> BreakAt(line, q);
  }

  /** The first empty line is the one that ends the head. */
  lemma HeadEnds(lines: seq<string>, rest: string)
    requires WellFormed(lines)
    ensures var t := Terminated(lines) + CRLF + rest; var d := |Terminated(lines)| - 2;
            d >= 0 && First(t, CRLF_CRLF) == d && t[..d] == Join(lines, CRLF)
  {
    TerminatedIsJoin(lines);
    var t := Terminated(lines) + CRLF + rest;
    assert t == Terminated(lines) + (CRLF + rest);
    var d := |Terminated(lines)| - 2;
    assert t[..d] == Join(lines, CRLF);
    assert BreakAt(t, d) && BreakAt(t, d + 2);
    DoubleBreak(t, d);
    forall q: nat | OccursAt(t, CRLF_CRLF, q) ensures d <= q {
      DoubleBreak(t, q);
      if q < d { NoDoubleInside(lines, rest, q); }
    }
    FirstUnique(t, CRLF_CRLF, d);
  }

  // ----- header lines are read back

  lemma ReadNamed(name: string, f: int, value: string, m: map<int, string>)
    requires Plain(name) && FieldOf(name) == Some(f)
    ensures ReadLine(HeaderLine(name, value), m) == Read(m[f := value])
  {
    var line := HeaderLine(name, value);
    assert line[|name|] == ':';
    assert forall i :: 0 <= i < |name| ==> line[i] == name[i] && name[i] in name;
    ColonFound(line, 0, |name|);
    assert line[..|name|] == name && line[|name| + 2..] == value;
  }

  lemma ReadKnown(f: int, value: string, m: map<int, string>)
    requires 0 <= f < FIELDS
    ensures ReadLine(HeaderLine(FieldName(f).value, value), m) == Read(m[f := value])
  {
    PlainFields(f);
    FieldTables(f, FieldName(f).value);
    ReadNamed(FieldName(f).value, f, value, m);
  }

  lemma ReadFirst(line: string, tail: seq<string>, m: map<int, string>, m': map<int, string>)
    requires ReadLine(line, m) == Read(m')
    ensures ReadLines([line] + tail, m) == ReadLines(tail, m')
  {
  }

  function KnownFrom(headers: map<int, string>, f: nat): map<int, string> {
    map k | k in headers && f <= k < FIELDS :: headers[k]
  }

  lemma KnownStep(headers: map<int, string>, f: nat, m: map<int, string>)
    requires f < FIELDS
    ensures (if f in headers then m[f := headers[f]] else m) + KnownFrom(headers, f + 1) == m + KnownFrom(headers, f)
  {
  }

  lemma KnownEnd(headers: map<int, string>, m: map<int, string>)
    ensures m + KnownFrom(headers, FIELDS) == m
  {
  }

  lemma FirstHeaderLine(headers: map<int, string>, f: nat, m: map<int, string>)
    requires f < FIELDS
    ensures ReadLines(HeaderLines(headers, f), m)
         == ReadLines(HeaderLines(headers, f + 1), if f in headers then m[f := headers[f]] else m)
  {
    var tail := HeaderLines(headers, f + 1);
    if f in headers {
      KnownFields(f);
      ReadKnown(f, headers[f], m);
      ReadFirst(HeaderLine(FieldName(f).value, headers[f]), tail, m, m[f := headers[f]]);
    } else {
      assert [] + tail == tail;
    }
  }

  /** The fields from `f` on, put into `m` one by one. */
  function Gathered(headers: map<int, string>, f: nat, m: map<int, string>): map<int, string>
    requires f <= FIELDS
    decreases FIELDS - f
  {
    if f == FIELDS then m else Gathered(headers, f + 1, if f in headers then m[f := headers[f]] else m)
  }

  lemma {:induction false} GatheredIsKnown(headers: map<int, string>, f: nat, m: map<int, string>)
    requires f <= FIELDS
    ensures Gathered(headers, f, m) == m + KnownFrom(headers, f)
    decreases FIELDS - f
  {
    if f == FIELDS {
      KnownEnd(headers, m);
    } else {
      GatheredIsKnown(headers, f + 1, if f in headers then m[f := headers[f]] else m);
      KnownStep(headers, f, m);
    }
  }

  lemma {:induction false} ReadHeaderLines(headers: map<int, string>, f: nat, m: map<int, string>)
    requires f <= FIELDS
    ensures ReadLines(HeaderLines(headers, f), m) == Read(Gathered(headers, f, m))
    decreases FIELDS - f
  {
    if f < FIELDS {
      FirstHeaderLine(headers, f, m);
      ReadHeaderLines(headers, f + 1, if f in headers then m[f := headers[f]] else m);
    }
  }

  lemma ReadBack(headers: map<int, string>, f: nat, m: map<int, string>)
    requires f <= FIELDS
    ensures ReadLines(HeaderLines(headers, f), m) == Read(m + KnownFrom(headers, f))
  {
    ReadHeaderLines(headers, f, m);
    GatheredIsKnown(headers, f, m);
  }

  /** Each known header is printed once, in the order of the fields' numbers, and nothing else is. */
  ghost predicate PrintsFields(headers: map<int, string>, lines: seq<string>, fs: seq<int>, from: nat) {
    && |fs| == |lines|
    && (forall i, j :: 0 <= i < j < |fs| ==> fs[i] < fs[j])
    && (forall i :: 0 <= i < |fs| ==> from <= fs[i] < FIELDS && IsLineFor(headers, lines[i], fs[i]))
    && Covers(headers, fs, from)
  }

  ghost predicate IsLineFor(headers: map<int, string>, line: string, f: int) {
    f in headers && FieldName(f).Some? && line == FieldName(f).value + ": " + headers[f]
  }

  ghost predicate Covers(headers: map<int, string>, fs: seq<int>, from: nat) {
    forall f :: from <= f < FIELDS && f in headers ==> f in fs
  }

  lemma CoversOneMore(headers: map<int, string>, fs: seq<int>, f: nat)
    requires Covers(headers, fs, f + 1)
    ensures Covers(headers, [f] + fs, f)
  {
    var gs := [f] + fs;
    assert gs[0] == f && forall g :: g in fs ==> g in gs;
  }

  lemma PrintsOneMore(headers: map<int, string>, lines: seq<string>, fs: seq<int>, f: nat)
    requires f < FIELDS && f in headers && PrintsFields(headers, lines, fs, f + 1)
    ensures PrintsFields(headers, [HeaderLine(FieldName(f).value, headers[f])] + lines, [f] + fs, f)
  {
    CoversOneMore(headers, fs, f);
    KnownFields(f);
    assert IsLineFor(headers, HeaderLine(FieldName(f).value, headers[f]), f);
  }

  lemma PrintsNoMore(headers: map<int, string>, lines: seq<string>, fs: seq<int>, f: nat)
    requires f < FIELDS && f !in headers && PrintsFields(headers, lines, fs, f + 1)
    ensures PrintsFields(headers, lines, fs, f)
  {
  }

  lemma {:induction false} PrintedInOrder(headers: map<int, string>, f: nat) returns (fs: seq<int>)
    requires f <= FIELDS
    ensures PrintsFields(headers, HeaderLines(headers, f), fs, f)
    decreases FIELDS - f
  {
    if f == FIELDS { return []; }
    fs := PrintedInOrder(headers, f + 1);
    var lines := HeaderLines(headers, f + 1);
    if f in headers {
      PrintsOneMore(headers, lines, fs, f);
      fs := [f] + fs;
    } else {
      PrintsNoMore(headers, lines, fs, f);
      assert [] + lines == lines;
    }
  }

  lemma EmptyPlus(m: map<int, string>)
    ensures map[] + m == m
  {
  }

  function Known(headers: map<int, string>): map<int, string> {
    KnownFrom(headers, 0)
  }

  /** The printed header lines are read back as the known headers. */
  lemma HeadersRoundTrip(headers: map<int, string>)
    ensures ReadLines(HeaderLines(headers, 0), map[]) == Read(Known(headers))
  {
    ReadBack(headers, 0, map[]);
    EmptyPlus(Known(headers));
  }
}
