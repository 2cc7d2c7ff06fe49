/** What the request parser's answer says about the message, line by line and field by field. */
module HttpOutcomes {

  import opened Basics
  import opened Splitting
  import opened Decimal
  import opened HttpTables
  import opened Http
  import opened HttpRoundTrip
  import opened HttpStream

  // ----- the header lines

  predicate HasColon(line: string) {
    0 <= Colon(line) < |line|
  }

  /** The part before the line's colon is the name of field `f`. */
  predicate Names(line: string, f: int) {
    HasColon(line) && FieldOf(line[..Colon(line)]) == Some(f)
  }

  /** The lines before `n` have a colon and are not bare, and `n` is the end or the first line without a colon. */
  ghost predicate ReadUpTo(lines: seq<string>, n: nat) {
    && n <= |lines| && (forall i :: 0 <= i < n ==> HasColon(lines[i]) && !Bare(lines[i]))
    && (n < |lines| ==> !HasColon(lines[n]))
  }

  lemma ReadUpToTail(lines: seq<string>, n: nat)
    requires ReadUpTo(lines, n) && n > 0
    ensures ReadUpTo(lines[1..], n - 1)
  {
    assert forall i :: 0 <= i < |lines| - 1 ==> lines[1..][i] == lines[i + 1];
  }

  lemma {:induction false} ReadOrNoColon(lines: seq<string>, m: map<int, string>, n: nat)
    requires ReadUpTo(lines, n)
    ensures var r := ReadLines(lines, m); !r.OutOfRange? && (r.Read? <==> n == |lines|)
    decreases lines
  {
    if n > 0 {
      ReadUpToTail(lines, n);
      assert HasColon(lines[0]) && !Bare(lines[0]);
      ReadOrNoColon(lines[1..], ReadLine(lines[0], m).headers, n - 1);
    }
  }

  lemma {:induction false} ReadUpToExists(lines: seq<string>, m: map<int, string>) returns (n: nat)
    requires !ReadLines(lines, m).OutOfRange?
    ensures ReadUpTo(lines, n)
    decreases lines
  {
    if lines == [] || !HasColon(lines[0]) { return 0; }
    n := ReadUpToExists(lines[1..], ReadLine(lines[0], m).headers);
    assert forall i :: 0 <= i < |lines| - 1 ==> lines[1..][i] == lines[i + 1];
    n := n + 1;
  }

  /** All lines are read exactly if each has a colon and none is bare. */
  lemma AllReadIff(lines: seq<string>, m: map<int, string>)
    ensures ReadLines(lines, m).Read? <==> ReadUpTo(lines, |lines|)
    ensures ReadLines(lines, m).NoColon? <==> exists n: nat :: n < |lines| && ReadUpTo(lines, n)
  {
    if !ReadLines(lines, m).OutOfRange? {
      var n := ReadUpToExists(lines, m);
      ReadOrNoColon(lines, m, n);
    }
    forall n: nat | ReadUpTo(lines, n)
      ensures !ReadLines(lines, m).OutOfRange? && (ReadLines(lines, m).Read? <==> n == |lines|)
    {
      ReadOrNoColon(lines, m, n);
    }
  }

  predicate SameAt(m: map<int, string>, m': map<int, string>, f: int) {
    (f in m <==> f in m') && (f in m && f in m' ==> m[f] == m'[f])
  }

  /** One line changes at most the field that it names. */
  lemma OneLine(line: string, m: map<int, string>, f: int)
    requires HasColon(line) && !Bare(line)
    ensures var r := ReadLine(line, m);
            && r.Read?
            && (Names(line, f) ==> f in r.headers && r.headers[f] == line[Colon(line) + 2..])
            && (!Names(line, f) ==> SameAt(r.headers, m, f))
  {
  }

  /** A field that no line names keeps its value, whatever the lines hold. */
  lemma {:induction false} NeverNamed(lines: seq<string>, m: map<int, string>, n: nat, f: int)
    requires ReadUpTo(lines, n) && forall i :: 0 <= i < n ==> !Names(lines[i], f)
    ensures !ReadLines(lines, m).OutOfRange? && SameAt(ReadLines(lines, m).headers, m, f)
    decreases lines
  {
    if n > 0 {
      ReadUpToTail(lines, n);
      OneLine(lines[0], m, f);
      assert forall i :: 0 <= i < n - 1 ==> lines[1..][i] == lines[i + 1];
      NeverNamed(lines[1..], ReadLine(lines[0], m).headers, n - 1, f);
    }
  }

  /** A field has what is behind the colon and the space of the last line that names it. */
  lemma {:induction false} LastNamed(lines: seq<string>, m: map<int, string>, n: nat, k: nat, f: int)
    requires ReadUpTo(lines, n) && k < n && Names(lines[k], f)
    requires forall i :: k < i < n ==> !Names(lines[i], f)
    ensures var r := ReadLines(lines, m);
            !r.OutOfRange? && f in r.headers && r.headers[f] == lines[k][Colon(lines[k]) + 2..]
    decreases lines
  {
    assert HasColon(lines[k]) && !Bare(lines[k]);
    ReadUpToTail(lines, n);
    OneLine(lines[0], m, f);
    assert forall i :: 0 <= i < n - 1 ==> lines[1..][i] == lines[i + 1];
    var m' := ReadLine(lines[0], m).headers;
    if k == 0 {
      NeverNamed(lines[1..], m', n - 1, f);
    } else {
      LastNamed(lines[1..], m', n - 1, k - 1, f);
    }
  }

  // ----- the start line

  lemma SplitIs(s: string, sep: string, ps: seq<string>)
    requires Splitter(sep) && IsSplit(s, sep, ps)
    ensures Split(s, sep) == ps
  {
    SplitUnique(sep, Split(s, sep), ps);
  }

  /** Three fields of which the first is no known method. */
  ghost predicate UnknownMethod(s: string) {
    exists m, u, v :: IsSplit(s, " ", [m, u, v]) && MethodOf(m).None?
  }

  lemma UnknownMethodIff(s: string)
    ensures Splitter(" ")
    ensures UnknownMethod(s) <==> |Split(s, " ")| == 3 && MethodOf(Split(s, " ")[0]).None?
  {
    Splitters();
    var ps := Split(s, " ");
    if |ps| == 3 { assert ps == [ps[0], ps[1], ps[2]]; }
    forall m, u, v | IsSplit(s, " ", [m, u, v]) ensures ps == [m, u, v] { SplitIs(s, " ", [m, u, v]); }
  }

  /** 405 exactly for three fields with an unknown method; with `AcceptedIff` for 200, all the rest is 400. */
  lemma StatusIff(ctx: Context)
    ensures var status := Handle(ctx).status;
            (status == 405 <==> UnknownMethod(ctx.startLine)) && (status == 200 || status == 405 || status == 400)
  {
    UnknownMethodIff(ctx.startLine);
  }

  /** What the handler leaves as it was. */
  lemma HandleKeeps(ctx: Context)
    ensures var r := Handle(ctx);
            && r.ctx.startLine == ctx.startLine && r.ctx.headers == ctx.headers && r.ctx.payload == ctx.payload
            && r.ctx.contentLength == ctx.contentLength
            && (r.status != OK ==> r.ctx == ctx.(verb := r.ctx.verb))
            && (r.status == METHOD_NOT_ALLOWED ==> r.ctx == ctx)
  {
  }

  /** The method is noted as soon as it is known, even if the uri is then refused. */
  lemma VerbNoted(ctx: Context, m: string, u: string, v: string)
    requires IsSplit(ctx.startLine, " ", [m, u, v])
    ensures Handle(ctx).ctx.verb == match MethodOf(m) case Some(x) => x case None => ctx.verb
  {
    Splitters();
    SplitIs(ctx.startLine, " ", [m, u, v]);
    assert [m, u, v][0] == m;
  }

  ghost predicate ThreeFields(s: string) {
    exists m, u, v :: IsSplit(s, " ", [m, u, v])
  }

  lemma ThreeFieldsIff(s: string)
    ensures Splitter(" ") && (ThreeFields(s) <==> |Split(s, " ")| == 3)
  {
    Splitters();
    var ps := Split(s, " ");
    if |ps| == 3 { assert ps == [ps[0], ps[1], ps[2]]; }
    forall m, u, v | IsSplit(s, " ", [m, u, v]) ensures ps == [m, u, v] { SplitIs(s, " ", [m, u, v]); }
  }

  /** A start line that has not three fields is answered 400 and changes nothing. */
  lemma NotThreeFields(ctx: Context)
    requires !ThreeFields(ctx.startLine)
    ensures Handle(ctx) == Handled(400, ctx)
  {
    ThreeFieldsIff(ctx.startLine);
  }

  /** The request lists gzip, and does not list identity before it. */
  ghost predicate AsksForGzip(headers: map<int, string>) {
    ACCEPT_ENCODING in headers &&
    exists es, i :: IsSplit(headers[ACCEPT_ENCODING], ", ", es) && GzipWins(es, i)
  }

  lemma AsksIff(headers: map<int, string>)
    ensures AsksForGzip(headers) <==> Negotiated(headers) == GZIP
    ensures Negotiated(headers) == GZIP || Negotiated(headers) == IDENTITY
  {
    Splitters();
    if ACCEPT_ENCODING in headers {
      var s := headers[ACCEPT_ENCODING];
      var es := Split(s, ", ");
      EncodingIff(es);
      forall ps, i | IsSplit(s, ", ", ps) && GzipWins(ps, i) ensures GzipWins(es, i) { SplitIs(s, ", ", ps); }
    }
  }

  /** An accepted request is answered with gzip exactly if it asks for it, and as it is otherwise. */
  lemma EncodingOfAccepted(ctx: Context)
    requires Handle(ctx).status == OK
    ensures Handle(ctx).ctx.contentEncoding == if AsksForGzip(ctx.headers) then GZIP else IDENTITY
  {
    AsksIff(ctx.headers);
  }

  // ----- the whole message

  /** The context that the handler gets to see: head and body filled in, the rest as before. */
  ghost predicate Filled(before: Context, message: string, c: Context)
    requires First(message, CRLF_CRLF) >= 0 && !HeadFields(message).OutOfRange?
  {
    var d := First(message, CRLF_CRLF);
    && IsSplit(message[..d], CRLF, [c.startLine] + HeaderText(message))
    && c == before.(startLine := c.startLine, headers := HeadFields(message).headers, uri := "", payload := c.payload)
  }

  lemma FirstAndRest(ps: seq<string>)
    requires ps != []
    ensures [ps[0]] + ps[1..] == ps
  {
  }

  /** A message whose header lines were read is answered by the handler, with head and declared body as its length. */
  lemma DecidedRequest(before: Context, message: string) returns (c: Context)
    requires Parse(before, message).Returned? && !Undecided(Parse(before, message)) && HeadFields(message).Read?
    ensures Filled(before, message, c)
    ensures var d, n, r := First(message, CRLF_CRLF), Declared(HeadFields(message).headers), Parse(before, message);
            && Handle(c) == Handled(r.status, r.ctx) && r.length == d + 4 + n <= |message|
            && c.payload == if n < 0 then message[d + 4..] else message[d + 4..d + 4 + n]
  {
    UndecidedIff(before, message);
    DecidedLength(before, message);
    Splitters();
    var d := First(message, CRLF_CRLF);
    var lines := Split(message[..d], CRLF);
    var m := HeadFields(message).headers;
    FirstAndRest(lines);
    c := Cleared(before).(startLine := lines[0], headers := m, payload := Substr(message, d + 4, Declared(m)));
  }

  /** A header line without a colon is answered 400 with length 0, and the lines before it have been read. */
  lemma DecidedBadLine(before: Context, message: string)
    requires First(message, CRLF_CRLF) >= 0 && HeadFields(message).NoColon?
    ensures var r := Parse(before, message);
            && r.Returned? && r.status == BAD_REQUEST && r.length == 0
            && Filled(before, message, r.ctx) && r.ctx.payload == ""
  {
    Splitters();
    FirstAndRest(Split(message[..First(message, CRLF_CRLF)], CRLF));
  }

  /** Without a line that names Content-Length the message is its head, and the body is empty. */
  lemma NoContentLength(before: Context, message: string)
    requires Parse(before, message).Returned? && !Undecided(Parse(before, message)) && HeadFields(message).Read?
    requires forall i :: 0 <= i < |HeaderText(message)| ==> !Names(HeaderText(message)[i], CONTENT_LENGTH)
    ensures Parse(before, message).length == First(message, CRLF_CRLF) + 4 && Parse(before, message).ctx.payload == ""
  {
    var lines := HeaderText(message);
    AllReadIff(lines, map[]);
    NeverNamed(lines, map[], |lines|, CONTENT_LENGTH);
    var c := DecidedRequest(before, message);
    HandleKeeps(c);
  }

  /** The last line that names Content-Length declares the body's length. */
  lemma ContentLengthLine(message: string, k: nat)
    requires First(message, CRLF_CRLF) >= 0 && HeadFields(message).Read? && k < |HeaderText(message)|
    requires Names(HeaderText(message)[k], CONTENT_LENGTH)
    requires forall i :: k < i < |HeaderText(message)| ==> !Names(HeaderText(message)[i], CONTENT_LENGTH)
    ensures var line := HeaderText(message)[k];
            Colon(line) + 2 <= |line| && Declared(HeadFields(message).headers) == Atoi(line[Colon(line) + 2..])
  {
    var lines := HeaderText(message);
    AllReadIff(lines, map[]);
    assert !Bare(lines[k]);
    LastNamed(lines, map[], |lines|, k, CONTENT_LENGTH);
  }

  /** What one step takes off the buffer, whatever the status: head and declared body, or nothing. */
  lemma StepTakesExactly(before: Context, message: string)
    ensures var r := Parse(before, message); var k := StepTakes(r, |message|); var d := First(message, CRLF_CRLF);
            if r.Exception? || Undecided(r) || HeadFields(message).NoColon? then k == 0
            else
              var length := d + 4 + Declared(HeadFields(message).headers);
              k == Min(length % UINT32, |message|) && (0 <= length && |message| < UINT32 ==> k == length)
  {
    UndecidedIff(before, message);
    var r := Parse(before, message);
    if r.Returned? && !Undecided(r) {
      DecidedLength(before, message);
      if HeadFields(message).Read? { var c := DecidedRequest(before, message); }
      if 0 <= r.length < UINT32 { FitsUint32(r.length); }
    }
  }
}
