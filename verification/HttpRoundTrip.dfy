/** Composed requests are parsed back, one after the other, however much of the next has arrived. */
module HttpRoundTrip {

  import opened Search
  import opened Splitting
  import opened Decimal
  import opened HttpTables
  import opened Http
  import opened HttpLaws

  /** A request that the printer can print so that it can be told apart again. */
  ghost predicate Composable(ctx: Context) {
    && MethodName(ctx.verb).Some?
    && ctx.uri != [] && ctx.uri[0] == '/' && ' ' !in ctx.uri && NoBreak(ctx.uri)
    && ' ' !in ctx.version && NoBreak(ctx.version)
    && ValuesNoBreak(ctx.headers)
  }

  ghost predicate ValuesNoBreak(headers: map<int, string>) {
    forall f :: f in headers && 0 <= f < FIELDS && f != CONTENT_LENGTH ==> NoBreak(headers[f])
  }

  // ----- the printed lines

  lemma HeaderLineNoBreak(name: string, value: string)
    requires Plain(name) && NoBreak(value)
    ensures NoBreak(HeaderLine(name, value)) && HeaderLine(name, value) != []
  {
    PlainNoBreak(name);
    NoBreakAround(name, ": ", value);
  }

  ghost predicate GoodLines(lines: seq<string>) {
    forall k :: 0 <= k < |lines| ==> NoBreak(lines[k]) && lines[k] != []
  }

  lemma GoodFirst(line: string, lines: seq<string>)
    requires NoBreak(line) && line != [] && GoodLines(lines)
    ensures GoodLines([line] + lines)
  {
  }

  lemma {:induction false} HeaderLinesGood(headers: map<int, string>, f: nat)
    requires f <= FIELDS && forall k :: k in headers && 0 <= k < FIELDS ==> NoBreak(headers[k])
    ensures GoodLines(HeaderLines(headers, f))
    decreases FIELDS - f
  {
    if f < FIELDS {
      HeaderLinesGood(headers, f + 1);
      if f in headers {
        PlainFields(f);
        HeaderLineNoBreak(FieldName(f).value, headers[f]);
        GoodFirst(HeaderLine(FieldName(f).value, headers[f]), HeaderLines(headers, f + 1));
      } else {
        assert [] + HeaderLines(headers, f + 1) == HeaderLines(headers, f + 1);
      }
    }
  }

  lemma NumberNoBreak(i: int)
    ensures NoBreak(ToString(i))
  {
  }

  lemma StartLineNoBreak(m: string, u: string, v: string)
    requires NoBreak(m) && NoBreak(u) && NoBreak(v)
    ensures NoBreak(m + " " + u + " " + v)
  {
    NoBreakAround(m, " ", u);
    NoBreakAround(m + " " + u, " ", v);
  }

  lemma StartNoBreak(ctx: Context)
    requires Composable(ctx)
    ensures NoBreak(Prepared(ctx).startLine)
  {
    PlainMethods(ctx.verb);
    PlainNoBreak(MethodName(ctx.verb).value);
    StartLineNoBreak(MethodName(ctx.verb).value, ctx.uri, ctx.version);
  }

  lemma HeadersNoBreak(ctx: Context)
    requires Composable(ctx)
    ensures var headers := Prepared(ctx).headers;
            forall k :: k in headers && 0 <= k < FIELDS ==> NoBreak(headers[k])
  {
    NumberNoBreak(ctx.contentLength);
  }

  lemma StartThenGood(start: string, lines: seq<string>)
    requires NoBreak(start) && GoodLines(lines)
    ensures WellFormed([start] + lines)
  {
  }

  lemma LinesWellFormed(ctx: Context)
    requires Composable(ctx)
    ensures WellFormed(Lines(ctx))
  {
    StartNoBreak(ctx);
    HeadersNoBreak(ctx);
    HeaderLinesGood(Prepared(ctx).headers, 0);
    StartThenGood(Prepared(ctx).startLine, HeaderLines(Prepared(ctx).headers, 0));
  }

  lemma WellFormedFree(lines: seq<string>)
    requires WellFormed(lines)
    ensures AllFree(lines, CRLF)
  {
    forall k | 0 <= k < |lines| ensures Free(lines[k], CRLF) { NoBreakIsFree(lines[k]); }
  }

  // ----- the start line

  lemma NoSpaceIsFree(s: string)
    requires ' ' !in s
    ensures Free(s, " ")
  {
    forall q: nat ensures !OccursAt(s, " ", q) {
      if q < |s| { assert s[q] in s && " "[0] == ' '; }
    }
  }

  lemma FreeIsNoSpace(s: string)
    requires Free(s, " ")
    ensures ' ' !in s
  {
    forall q | 0 <= q < |s| ensures s[q] != ' ' {
      assert !OccursAt(s, " ", q);
    }
  }

  lemma JoinThree(m: string, u: string, v: string)
    ensures Join([m, u, v], " ") == m + " " + u + " " + v
  {
    assert [m, u, v][1..] == [u, v] && [u, v][1..] == [v];
    assert Join([u, v], " ") == u + " " + v;
    assert m + " " + (u + " " + v) == m + " " + u + " " + v;
  }

  lemma StartLineFields(m: string, u: string, v: string)
    requires ' ' !in m && ' ' !in u && ' ' !in v && Splitter(" ")
    ensures Split(m + " " + u + " " + v, " ") == [m, u, v]
  {
    NoSpaceIsFree(m);
    NoSpaceIsFree(u);
    NoSpaceIsFree(v);
    JoinThree(m, u, v);
    SplitJoin([m, u, v], " ");
  }

  lemma HandlePrinted(c: Context, ctx: Context)
    requires Composable(ctx) && c.startLine == Prepared(ctx).startLine
    ensures Handle(c) == Handled(OK, c.(verb := ctx.verb, uri := ctx.uri[1..], version := ctx.version,
                                       contentEncoding := Negotiated(c.headers)))
  {
    Splitters();
    var m := MethodName(ctx.verb).value;
    PlainMethods(ctx.verb);
    MethodTables(ctx.verb, m);
    StartLineFields(m, ctx.uri, ctx.version);
    var fields := [m, ctx.uri, ctx.version];
    assert fields[0] == m && fields[1] == ctx.uri && fields[2] == ctx.version;
  }

  /** A method, a uri with a leading slash and a version, separated by single spaces. */
  ghost predicate IsStartLine(s: string, m: string, u: string, v: string) {
    ' ' !in m && ' ' !in u && ' ' !in v && s == m + " " + ("/" + u) + " " + v
  }

  lemma AcceptedFields(ctx: Context)
    requires Handle(ctx).status == OK
    ensures var c := Handle(ctx).ctx;
            MethodName(c.verb).Some? && IsStartLine(ctx.startLine, MethodName(c.verb).value, c.uri, c.version)
  {
    Splitters();
    var fields := Split(ctx.startLine, " ");
    var m, u, v := fields[0], fields[1], fields[2];
    assert fields == [m, u, v];
    FreeIsNoSpace(m);
    FreeIsNoSpace(u);
    FreeIsNoSpace(v);
    JoinThree(m, u, v);
    MethodTables(Handle(ctx).ctx.verb, m);
    assert u == "/" + u[1..];
  }

  lemma StartLineAccepted(ctx: Context, m: string, u: string, v: string)
    requires IsStartLine(ctx.startLine, m, u, v) && MethodOf(m).Some?
    ensures Handle(ctx).status == OK
  {
    Splitters();
    StartLineFields(m, "/" + u, v);
    assert [m, "/" + u, v][1] == "/" + u;
  }

  /** Exactly the well-formed start lines with a known method are accepted. */
  lemma AcceptedIff(ctx: Context)
    ensures Handle(ctx).status == OK <==>
            exists m, u, v :: IsStartLine(ctx.startLine, m, u, v) && MethodOf(m).Some?
  {
    if Handle(ctx).status == OK {
      AcceptedFields(ctx);
      MethodTables(Handle(ctx).ctx.verb, MethodName(Handle(ctx).ctx.verb).value);
    }
    forall m, u, v | IsStartLine(ctx.startLine, m, u, v) && MethodOf(m).Some? ensures Handle(ctx).status == OK {
      StartLineAccepted(ctx, m, u, v);
    }
  }

  /** Parse, then print: an accepted start line is printed back once the slash is put in front again. */
  lemma StartLinePrintsBack(ctx: Context)
    requires Handle(ctx).status == OK
    ensures var c := Handle(ctx).ctx;
            MethodName(c.verb).Some? && Prepared(c.(uri := "/" + c.uri)).startLine == ctx.startLine
  {
    AcceptedFields(ctx);
  }

  // ----- the encoding

  ghost predicate GzipWins(es: seq<string>, i: nat) {
    i < |es| && es[i] == "gzip" && forall j :: 0 <= j < i ==> es[j] != "identity"
  }

  lemma {:induction false} GzipFirst(es: seq<string>) returns (i: nat)
    requires FirstSupported(es) == GZIP
    ensures GzipWins(es, i)
  {
    if es[0] == "gzip" { return 0; }
    i := GzipFirst(es[1..]);
    assert forall j :: 1 <= j <= i ==> es[j] == es[1..][j - 1];
    i := i + 1;
  }

  lemma {:induction false} GzipChosen(es: seq<string>, i: nat)
    requires GzipWins(es, i)
    ensures FirstSupported(es) == GZIP
  {
    if es[0] != "gzip" {
      assert es[0] != "identity";
      assert forall j :: 0 <= j < i ==> es[1..][j] == es[j + 1];
      GzipChosen(es[1..], i - 1);
    }
  }

  lemma {:induction false} OnlyTwo(es: seq<string>)
    ensures FirstSupported(es) == GZIP || FirstSupported(es) == IDENTITY
  {
    if es != [] { OnlyTwo(es[1..]); }
  }

  /** gzip is chosen exactly if it is listed and identity is not listed before it; otherwise identity is. */
  lemma EncodingIff(es: seq<string>)
    ensures FirstSupported(es) == GZIP <==> exists i :: GzipWins(es, i)
    ensures FirstSupported(es) != GZIP ==> FirstSupported(es) == IDENTITY
  {
    if FirstSupported(es) == GZIP { var i := GzipFirst(es); }
    forall i | GzipWins(es, i) ensures FirstSupported(es) == GZIP { GzipChosen(es, i); }
    OnlyTwo(es);
  }

  // ----- the whole request

  /** The context once the printed head has been read. */
  function HeadRead(before: Context, ctx: Context): Context
    requires MethodName(ctx.verb).Some?
  {
    Cleared(before).(startLine := Prepared(ctx).startLine, headers := Known(Prepared(ctx).headers))
  }

  lemma ParseWellFormed(before: Context, lines: seq<string>, rest: string)
    requires WellFormed(lines)
    ensures var message := Terminated(lines) + CRLF + rest;
            Parse(before, message) == ParseLines(before, lines, message, |Terminated(lines)| + 2)
  {
    Splitters();
    HeadEnds(lines, rest);
    WellFormedFree(lines);
    SplitJoin(lines, CRLF);
  }

  lemma LinesRead(before: Context, ctx: Context, message: string, head: nat)
    requires MethodName(ctx.verb).Some? && head <= |message|
    ensures ParseLines(before, Lines(ctx), message, head) == Body(HeadRead(before, ctx), message, head)
  {
    HeadersRoundTrip(Prepared(ctx).headers);
    assert Lines(ctx)[1..] == HeaderLines(Prepared(ctx).headers, 0);
  }

  lemma ParsedLinesRead(before: Context, ctx: Context, message: string, head: nat)
    requires MethodName(ctx.verb).Some? && head <= |message|
    requires Parse(before, message) == ParseLines(before, Lines(ctx), message, head)
    ensures Parse(before, message) == Body(HeadRead(before, ctx), message, head)
  {
    LinesRead(before, ctx, message, head);
  }

  lemma ParsePrintedLines(before: Context, ctx: Context, lines: seq<string>, rest: string)
    requires MethodName(ctx.verb).Some? && lines == Lines(ctx) && WellFormed(lines)
    ensures var head := Terminated(lines) + CRLF;
            Parse(before, head + rest) == Body(HeadRead(before, ctx), head + rest, |head|)
  {
    var head := Terminated(lines) + CRLF;
    ParseWellFormed(before, lines, rest);
    ParsedLinesRead(before, ctx, head + rest, |head|);
  }

  lemma ParsePrinted(before: Context, ctx: Context, rest: string)
    requires Composable(ctx)
    ensures Parse(before, Head(ctx) + rest) == Body(HeadRead(before, ctx), Head(ctx) + rest, |Head(ctx)|)
  {
    LinesWellFormed(ctx);
    ParsePrintedLines(before, ctx, Lines(ctx), rest);
  }

  lemma DeclaredLength(before: Context, ctx: Context)
    requires Composable(ctx)
    ensures Declared(HeadRead(before, ctx).headers) == ctx.contentLength
  {
    AtoiToString(ctx.contentLength);
    assert CONTENT_LENGTH in Known(Prepared(ctx).headers);
  }

  ghost function Reparsed(before: Context, ctx: Context, body: string): Context
    requires MethodName(ctx.verb).Some? && ctx.uri != []
  {
    var headers := Known(Prepared(ctx).headers);
    HeadRead(before, ctx).(verb := ctx.verb, uri := ctx.uri[1..], version := ctx.version, payload := body,
                           contentEncoding := Negotiated(headers))
  }

  /** Print, then parse: the same request comes out, and exactly its bytes are taken. */
  lemma RoundTrip(before: Context, ctx: Context, body: string, trailing: string)
    requires Composable(ctx) && ctx.contentLength == |body|
    ensures Parse(before, Head(ctx) + body + trailing)
         == Returned(OK, |Head(ctx)| + |body|, Reparsed(before, ctx, body))
  {
    var message := Head(ctx) + (body + trailing);
    assert Head(ctx) + body + trailing == message;
    ParsePrinted(before, ctx, body + trailing);
    DeclaredLength(before, ctx);
    assert Substr(message, |Head(ctx)|, |body|) == body;
    HandlePrinted(HeadRead(before, ctx).(payload := body), ctx);
  }

  lemma HeadCut(ctx: Context, rest: string, s: string, later: string)
    requires Composable(ctx) && s + later == Head(ctx) + rest && |s| < |Head(ctx)|
    ensures First(s, CRLF_CRLF) == -1
  {
    LinesWellFormed(ctx);
    HeadEnds(Lines(ctx), rest);
    if First(s, CRLF_CRLF) >= 0 { FirstStable(s, CRLF_CRLF, later); }
  }

  /** Anything short of the whole request is reported as incomplete, and nothing is taken. */
  lemma CutIsIncomplete(before: Context, ctx: Context, body: string, s: string, later: string)
    requires Composable(ctx) && ctx.contentLength == |body|
    requires s + later == Head(ctx) + body && later != []
    ensures var r := Parse(before, s); r.Returned? && r.status == INCOMPLETE && r.length == 0
  {
    if |s| < |Head(ctx)| {
      HeadCut(ctx, body, s, later);
    } else {
      var part := s[|Head(ctx)|..];
      assert s == Head(ctx) + part by { assert s[..|Head(ctx)|] == (s + later)[..|Head(ctx)|] == Head(ctx); }
      ParsePrinted(before, ctx, part);
      DeclaredLength(before, ctx);
    }
  }
}
