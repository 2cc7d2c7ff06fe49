/** Requests as a byte stream: what more bytes can change, and several requests in a row. */
module HttpStream {

  import opened Basics
  import opened Splitting
  import opened Stepping
  import opened Decimal
  import opened HttpTables
  import opened Http
  import opened HttpLaws
  import opened HttpRoundTrip

  /** The header lines of a message whose head has arrived. */
  ghost function HeaderText(message: string): seq<string>
    requires First(message, CRLF_CRLF) >= 0
  {
    Splitters();
    Split(message[..First(message, CRLF_CRLF)], CRLF)[1..]
  }

  ghost function HeadFields(message: string): Fields
    requires First(message, CRLF_CRLF) >= 0
  {
    ReadLines(HeaderText(message), map[])
  }

  ghost predicate Undecided(r: Outcome) {
    r.Returned? && r.status == INCOMPLETE
  }

  /** The head has arrived and declares a negative Content-Length. */
  ghost predicate NegativeLength(message: string) {
    First(message, CRLF_CRLF) >= 0 && HeadFields(message).Read? && Declared(HeadFields(message).headers) < 0
  }

  lemma HandleStatus(ctx: Context)
    ensures Handle(ctx).status in {OK, BAD_REQUEST, METHOD_NOT_ALLOWED}
    ensures Handle(ctx).ctx.payload == ctx.payload
  {
  }

  /** -1 means exactly that the empty line or part of the declared body is still to come. */
  lemma UndecidedIff(ctx: Context, message: string)
    ensures var d := First(message, CRLF_CRLF);
            Undecided(Parse(ctx, message)) <==>
              d < 0 || (HeadFields(message).Read? && Declared(HeadFields(message).headers) > |message| - d - 4)
  {
  }

  lemma HeadStable(message: string, more: string)
    requires First(message, CRLF_CRLF) >= 0
    ensures First(message + more, CRLF_CRLF) == First(message, CRLF_CRLF)
    ensures (message + more)[..First(message, CRLF_CRLF)] == message[..First(message, CRLF_CRLF)]
  {
    FirstStable(message, CRLF_CRLF, more);
  }

  lemma BodyStable(ctx: Context, message: string, more: string, head: nat)
    requires head <= |message| && 0 <= Declared(ctx.headers) <= |message| - head
    ensures Body(ctx, message + more, head) == Body(ctx, message, head)
  {
  }

  /** Once a message is decided, more bytes change neither status nor context nor length. */
  lemma Stable(ctx: Context, message: string, more: string)
    requires !Undecided(Parse(ctx, message)) && !NegativeLength(message)
    ensures Parse(ctx, message + more) == Parse(ctx, message)
  {
    UndecidedIff(ctx, message);
    HeadStable(message, more);
    var d := First(message, CRLF_CRLF);
    if HeadFields(message).Read? {
      Splitters();
      var lines := Split(message[..d], CRLF);
      BodyStable(Cleared(ctx).(startLine := lines[0], headers := HeadFields(message).headers), message, more, d + 4);
    }
  }

  lemma NegativeGrows(ctx: Context, message: string)
    requires NegativeLength(message)
    ensures Parse(ctx, message + "x") != Parse(ctx, message)
  {
    HeadStable(message, "x");
    Splitters();
    var d := First(message, CRLF_CRLF);
    var lines := Split(message[..d], CRLF);
    var m := HeadFields(message).headers;
    var c := Cleared(ctx).(startLine := lines[0], headers := m);
    var n := Declared(m);
    HandleStatus(c.(payload := Substr(message, d + 4, n)));
    HandleStatus(c.(payload := Substr(message + "x", d + 4, n)));
    assert |Substr(message + "x", d + 4, n)| == |Substr(message, d + 4, n)| + 1;
  }

  /** A decided message is stable exactly if its Content-Length is not negative. */
  lemma StableIff(ctx: Context, message: string)
    requires !Undecided(Parse(ctx, message))
    ensures (forall more :: Parse(ctx, message + more) == Parse(ctx, message)) <==> !NegativeLength(message)
  {
    if NegativeLength(message) {
      NegativeGrows(ctx, message);
    } else {
      forall more ensures Parse(ctx, message + more) == Parse(ctx, message) { Stable(ctx, message, more); }
    }
  }

  // ----- the server's step

  /** How many bytes `HaveRead(length)` takes off a buffer that holds `n`; the argument is cut to 32 bits. */
  function TakenOff(length: int, n: nat): nat {
    Min(length % UINT32, n)
  }

  /** What one Peek, Parse, HaveRead step takes off a buffer that holds `n` bytes. */
  ghost function StepTakes(r: Outcome, n: nat): (k: nat)
    ensures k <= n
  {
    if r.Exception? || Undecided(r) then 0 else TakenOff(r.length, n)
  }

  lemma TakesLength(r: Outcome, n: nat)
    requires r.Returned? && r.status == OK && 0 <= r.length <= n < UINT32
    ensures StepTakes(r, n) == r.length
  {
    FitsUint32(r.length);
  }

  datatype Drain = Drain(outcomes: seq<Outcome>, rest: string)

  /** That step, repeated as long as it takes something off the buffer. */
  ghost function Drained(before: Context, s: string): Drain
    decreases |s|
  {
    var r := Parse(before, s);
    var k := StepTakes(r, |s|);
    if k == 0 then Drain([], s)
    else
      var later := Drained(before, s[k..]);
      Drain([r] + later.outcomes, later.rest)
  }

  // ----- what printed heads say about themselves

  lemma HeadFieldsOf(lines: seq<string>, rest: string)
    requires WellFormed(lines)
    ensures var message := Terminated(lines) + CRLF + rest;
            First(message, CRLF_CRLF) == |Terminated(lines)| - 2
            && HeadFields(message) == ReadLines(lines[1..], map[])
  {
    Splitters();
    HeadEnds(lines, rest);
    WellFormedFree(lines);
    SplitJoin(lines, CRLF);
  }

  lemma PrintedHead(ctx: Context, rest: string)
    requires Composable(ctx)
    ensures var message := Head(ctx) + rest;
            First(message, CRLF_CRLF) + 4 == |Head(ctx)| && HeadFields(message).Read?
            && Declared(HeadFields(message).headers) == ctx.contentLength
  {
    LinesWellFormed(ctx);
    HeadFieldsOf(Lines(ctx), rest);
    assert Lines(ctx)[1..] == HeaderLines(Prepared(ctx).headers, 0);
    HeadersRoundTrip(Prepared(ctx).headers);
    DeclaredLength(ctx, ctx);
  }

  /** `GET / HTTP/1.1` with nothing but a Content-Length. */
  function Minimal(contentLength: int): Context {
    Context(0, "/", "HTTP/1.1", "", map[], "", IDENTITY, contentLength)
  }

  /** A negative Content-Length does occur, and there a further byte changes the outcome. */
  lemma NegativeLengthExample(before: Context)
    ensures var message := Head(Minimal(-1));
            && NegativeLength(message) && !Undecided(Parse(before, message))
            && Parse(before, message + "x") != Parse(before, message)
  {
    var message := Head(Minimal(-1));
    assert message + "" == message;
    MinimalComposable(-1);
    PrintedHead(Minimal(-1), "");
    UndecidedIff(before, message);
    NegativeGrows(before, message);
  }

  // ----- messages that are never taken off the buffer

  /** A bad header line, or a declared length that cancels the length of the head in 32 bits. */
  ghost predicate Sticks(message: string)
    requires First(message, CRLF_CRLF) >= 0
  {
    var fields := HeadFields(message);
    !fields.Read? || (First(message, CRLF_CRLF) + 4 + Declared(fields.headers)) % UINT32 == 0
  }

  /** What a decided message takes up, by its own account. */
  lemma DecidedLength(ctx: Context, message: string)
    requires Parse(ctx, message).Returned? && !Undecided(Parse(ctx, message))
    ensures var d := First(message, CRLF_CRLF);
            && d >= 0 && !HeadFields(message).OutOfRange? && d + 4 <= |message|
            && Parse(ctx, message).length ==
                 if HeadFields(message).NoColon? then 0 else d + 4 + Declared(HeadFields(message).headers)
  {
    UndecidedIff(ctx, message);
  }

  lemma StillDecided(ctx: Context, message: string, more: string)
    requires Parse(ctx, message).Returned? && !Undecided(Parse(ctx, message))
    ensures Parse(ctx, message + more).Returned? && !Undecided(Parse(ctx, message + more))
    ensures Parse(ctx, message + more).length == Parse(ctx, message).length
  {
    UndecidedIff(ctx, message);
    UndecidedIff(ctx, message + more);
    HeadStable(message, more);
    DecidedLength(ctx, message);
    DecidedLength(ctx, message + more);
  }

  lemma ZeroSticks(ctx: Context, message: string, more: string)
    requires var r := Parse(ctx, message); r.Returned? && !Undecided(r) && r.length % UINT32 == 0
    ensures Drained(ctx, message + more) == Drain([], message + more)
  {
    StillDecided(ctx, message, more);
  }

  /** A decided message stays on the buffer for ever, whatever arrives later, exactly if it sticks. */
  lemma SticksIff(ctx: Context, message: string, more: string)
    requires !Undecided(Parse(ctx, message))
    ensures First(message, CRLF_CRLF) >= 0
    ensures Drained(ctx, message + more) == Drain([], message + more) <==> Sticks(message)
  {
    UndecidedIff(ctx, message);
    if HeadFields(message).OutOfRange? {
      Stable(ctx, message, more);
    } else {
      DecidedLength(ctx, message);
      StillDecided(ctx, message, more);
    }
  }

  // ----- messages that make the parser throw

  /** A known name with nothing behind its colon. */
  predicate Bare(line: string) {
    var c := Colon(line);
    0 <= c < |line| && FieldOf(line[..c]).Some? && c + 2 > |line|
  }

  /** Line `k` is bare, and every line before it has a colon and is not bare. */
  ghost predicate FirstBare(lines: seq<string>, k: nat) {
    && k < |lines| && Bare(lines[k])
    && forall i :: 0 <= i < k ==> 0 <= Colon(lines[i]) < |lines[i]| && !Bare(lines[i])
  }

  lemma {:induction false} BareFound(lines: seq<string>, headers: map<int, string>) returns (k: nat)
    requires ReadLines(lines, headers).OutOfRange?
    ensures FirstBare(lines, k)
    decreases lines
  {
    if Bare(lines[0]) { return 0; }
    k := BareFound(lines[1..], ReadLine(lines[0], headers).headers);
    assert forall i :: 1 <= i <= k ==> lines[i] == lines[1..][i - 1];
    k := k + 1;
  }

  lemma {:induction false} BareThrows(lines: seq<string>, headers: map<int, string>, k: nat)
    requires FirstBare(lines, k)
    ensures ReadLines(lines, headers).OutOfRange?
    decreases lines
  {
    if k > 0 {
      assert !Bare(lines[0]);
      assert forall i :: 0 <= i < k ==> lines[1..][i] == lines[i + 1];
      BareThrows(lines[1..], ReadLine(lines[0], headers).headers, k - 1);
    }
  }

  lemma ExceptionIffOutOfRange(ctx: Context, message: string)
    ensures Parse(ctx, message) == Exception <==>
            First(message, CRLF_CRLF) >= 0 && HeadFields(message).OutOfRange?
  {
  }

  /** The parser throws exactly if a bare header line comes before any line without a colon. */
  lemma ThrowsIff(ctx: Context, message: string)
    ensures Parse(ctx, message) == Exception <==>
            First(message, CRLF_CRLF) >= 0 && exists k :: FirstBare(HeaderText(message), k)
  {
    ExceptionIffOutOfRange(ctx, message);
    if First(message, CRLF_CRLF) >= 0 {
      var lines := HeaderText(message);
      if ReadLines(lines, map[]).OutOfRange? { var k := BareFound(lines, map[]); }
      forall k | FirstBare(lines, k) ensures ReadLines(lines, map[]).OutOfRange? { BareThrows(lines, map[], k); }
    }
  }

  /** A line without a colon is answered 400 with length 0: it is never taken off, whatever arrives later. */
  lemma BadLineSticks(ctx: Context, message: string, more: string)
    requires First(message, CRLF_CRLF) >= 0 && HeadFields(message).NoColon?
    ensures var r := Parse(ctx, message + more); r.Returned? && r.status == BAD_REQUEST && r.length == 0
    ensures Drained(ctx, message + more) == Drain([], message + more)
  {
    UndecidedIff(ctx, message);
    Stable(ctx, message, more);
  }

  lemma BadLineExample(before: Context, more: string)
    ensures var message := Terminated(["GET / HTTP/1.1", "Host"]) + CRLF;
            && Parse(before, message).Returned? && Parse(before, message).status == BAD_REQUEST
            && Drained(before, message + more) == Drain([], message + more)
  {
    var lines := ["GET / HTTP/1.1", "Host"];
    var message := Terminated(lines) + CRLF;
    assert message + "" == message;
    ShortLines();
    HeadFieldsOf(lines, "");
    assert lines[1..] == ["Host"] && ["Host"][1..] == [];
    ColonFound("Host", 0, -1);
    BadLineSticks(before, message, "");
    BadLineSticks(before, message, more);
  }

  lemma ShortLines()
    ensures WellFormed(["GET / HTTP/1.1", "Host"]) && WellFormed(["GET / HTTP/1.1", "Host:"])
  {
  }

  /** "Host:" throws, and the message sticks. */
  lemma ThrowExample(before: Context, more: string)
    ensures var message := Terminated(["GET / HTTP/1.1", "Host:"]) + CRLF;
            Parse(before, message) == Exception && Drained(before, message + more) == Drain([], message + more)
  {
    var lines := ["GET / HTTP/1.1", "Host:"];
    var message := Terminated(lines) + CRLF;
    assert message + "" == message;
    ShortLines();
    HeadFieldsOf(lines, "");
    BareHost();
    assert lines[1..] == ["Host:"];
    SticksIff(before, message, more);
  }

  lemma BareHost()
    ensures ReadLines(["Host:"], map[]).OutOfRange?
  {
    var line := "Host:";
    ColonFound(line, 0, 4);
    assert line[..4] == "Host";
  }

  lemma {:induction false} OnlyLength(headers: map<int, string>, v: string, f: nat)
    requires headers == map[CONTENT_LENGTH := v] && f <= FIELDS
    ensures HeaderLines(headers, f) == if f <= CONTENT_LENGTH then [HeaderLine("Content-Length", v)] else []
    decreases FIELDS - f
  {
    if f < FIELDS { OnlyLength(headers, v, f + 1); }
  }

  lemma TwoLines(start: string, line: string)
    ensures |Terminated([start, line])| == |start| + |line| + 4
  {
    assert [start, line][1..] == [line] && [line][1..] == [];
    assert |Terminated([line])| == |line| + 2;
  }

  lemma MinimalComposable(n: int)
    ensures Composable(Minimal(n))
  {
  }

  lemma MinimalSize(n: int)
    ensures |Head(Minimal(n))| == 36 + |ToString(n)|
  {
    var start, line := Prepared(Minimal(n)).startLine, HeaderLine("Content-Length", ToString(n));
    OnlyLength(Prepared(Minimal(n)).headers, ToString(n), 0);
    assert Lines(Minimal(n)) == [start, line];
    TwoLines(start, line);
  }

  /** A printed head is accepted whatever length it declares, if the body that follows is no shorter. */
  lemma PrintedAccepted(before: Context, ctx: Context, rest: string)
    requires Composable(ctx) && ctx.contentLength <= |rest|
    ensures var r := Parse(before, Head(ctx) + rest);
            r.Returned? && r.status == OK && r.length == |Head(ctx)| + ctx.contentLength
  {
    ParsePrinted(before, ctx, rest);
    DeclaredLength(before, ctx);
    HandlePrinted(HeadRead(before, ctx).(payload := Substr(Head(ctx) + rest, |Head(ctx)|, ctx.contentLength)), ctx);
  }

  lemma PrintedAlone(before: Context, ctx: Context)
    requires Composable(ctx) && ctx.contentLength <= 0
    ensures var r := Parse(before, Head(ctx));
            r.Returned? && r.status == OK && r.length == |Head(ctx)| + ctx.contentLength
  {
    PrintedAccepted(before, ctx, "");
    assert Head(ctx) + "" == Head(ctx);
  }

  lemma SizeOfWrapping(n: int)
    requires n == -39
    ensures Composable(Minimal(n)) && |Head(Minimal(n))| == 39
  {
    MinimalComposable(n);
    MinimalSize(n);
    assert |Digits(-n)| == 2 by { assert |Digits(-n / 10)| == 1; }
  }

  /** A request of 39 bytes with Content-Length -39 is accepted with length 0 and sticks. */
  lemma WrapExample(before: Context, more: string)
    ensures var message := Head(Minimal(-39));
            && Parse(before, message).Returned? && Parse(before, message).status == OK
            && Drained(before, message + more) == Drain([], message + more)
  {
    var n := -39;
    SizeOfWrapping(n);
    PrintedAlone(before, Minimal(n));
    ZeroSticks(before, Head(Minimal(n)), more);
  }

  // ----- several requests in a row

  datatype Request = Request(ctx: Context, body: string)

  ghost predicate Sendable(r: Request) {
    Composable(r.ctx) && r.ctx.contentLength == |r.body|
  }

  function Printed(r: Request): string
    requires MethodName(r.ctx.verb).Some?
  {
    Head(r.ctx) + r.body
  }

  ghost predicate AllSendable(rs: seq<Request>) {
    forall k :: 0 <= k < |rs| ==> Sendable(rs[k])
  }

  ghost function Wire(rs: seq<Request>): string
    requires AllSendable(rs)
  {
    if rs == [] then [] else Printed(rs[0]) + Wire(rs[1..])
  }

  ghost function Expected(before: Context, rs: seq<Request>): seq<Outcome>
    requires AllSendable(rs)
  {
    if rs == [] then [] else
    [Decoded(before, rs[0])] + Expected(before, rs[1..])
  }

  lemma DrainStep(before: Context, s: string, r: Outcome, k: nat)
    requires r == Parse(before, s) && r.Returned? && r.status == OK && 0 < k <= |s| < UINT32 && r.length == k
    ensures var later := Drained(before, s[k..]); Drained(before, s) == Drain([r] + later.outcomes, later.rest)
  {
    TakesLength(r, |s|);
  }

  ghost function Decoded(before: Context, r: Request): Outcome
    requires Sendable(r)
  {
    Returned(OK, |Printed(r)|, Reparsed(before, r.ctx, r.body))
  }

  lemma PrintedParses(before: Context, r: Request, rest: string)
    requires Sendable(r)
    ensures Parse(before, Printed(r) + rest) == Decoded(before, r) && |Printed(r)| > 0
  {
    RoundTrip(before, r.ctx, r.body, rest);
  }

  lemma DrainOne(before: Context, r: Request, rest: string, later: Drain)
    requires Sendable(r) && |Printed(r) + rest| < UINT32 && later == Drained(before, rest)
    ensures Drained(before, Printed(r) + rest) == Drain([Decoded(before, r)] + later.outcomes, later.rest)
  {
    var n := |Printed(r)|;
    PrintedParses(before, r, rest);
    assert (Printed(r) + rest)[n..] == rest;
    DrainStep(before, Printed(r) + rest, Decoded(before, r), n);
  }

  lemma PrefixStays(before: Context, next: Request, s: string, later: string)
    requires Sendable(next) && s + later == Printed(next) && later != []
    ensures Drained(before, s) == Drain([], s) && Undecided(Parse(before, s))
  {
    CutIsIncomplete(before, next.ctx, next.body, s, later);
  }

  lemma WireStep(rs: seq<Request>, s: string)
    requires AllSendable(rs) && rs != []
    ensures Wire(rs) + s == Printed(rs[0]) + (Wire(rs[1..]) + s)
  {
  }

  /**
    Any number of composed requests followed by a strict prefix of another: each is
    decoded in order, and the prefix is reported incomplete and left untouched.
   */
  lemma {:induction false} Pipelined(before: Context, rs: seq<Request>, next: Request, s: string, later: string)
    requires AllSendable(rs) && Sendable(next) && s + later == Printed(next) && later != []
    requires |Wire(rs)| + |s| < UINT32
    ensures Drained(before, Wire(rs) + s) == Drain(Expected(before, rs), s)
    ensures Undecided(Parse(before, s))
    decreases rs
  {
    if rs == [] {
      assert Wire(rs) + s == s;
      PrefixStays(before, next, s, later);
    } else {
      Pipelined(before, rs[1..], next, s, later);
      WireStep(rs, s);
      DrainOne(before, rs[0], Wire(rs[1..]) + s, Drain(Expected(before, rs[1..]), s));
    }
  }

  // ----- requests that arrive in pieces

  /** One read event: an undecided message waits, any other outcome is answered and its bytes are taken off. */
  ghost function ServerStep(before: Context, s: string): Step<Outcome> {
    var r := Parse(before, s);
    if Undecided(r) then Wait else Take(r, s[StepTakes(r, |s|)..])
  }

  ghost function Server(before: Context): string -> Step<Outcome> {
    s => ServerStep(before, s)
  }

  ghost function ItemOf(before: Context, r: Request): Item<Outcome>
    requires Sendable(r)
  {
    Item(Printed(r), Decoded(before, r))
  }

  ghost function Items(before: Context, rs: seq<Request>): (items: seq<Item<Outcome>>)
    requires AllSendable(rs)
  {
    seq(|rs|, (k: nat) requires k < |rs| => ItemOf(before, rs[k]))
  }

  lemma ItemAt(before: Context, rs: seq<Request>, k: nat)
    requires AllSendable(rs) && k < |rs|
    ensures Items(before, rs)[k] == ItemOf(before, rs[k])
  {
  }

  lemma ItemsSplit(before: Context, rs: seq<Request>)
    requires AllSendable(rs) && rs != []
    ensures Items(before, rs)[0] == ItemOf(before, rs[0]) && Items(before, rs)[1..] == Items(before, rs[1..])
  {
    var items, tail := Items(before, rs), Items(before, rs[1..]);
    forall k | 0 <= k < |tail| ensures items[1..][k] == tail[k] {
      ItemAt(before, rs, k + 1);
      ItemAt(before, rs[1..], k);
    }
  }

  lemma {:induction false} StreamIsWire(before: Context, rs: seq<Request>)
    requires AllSendable(rs)
    ensures Stream(Items(before, rs)) == Wire(rs)
    decreases rs
  {
    if rs != [] {
      StreamIsWire(before, rs[1..]);
      ItemsSplit(before, rs);
    }
  }

  lemma WholeTaken(before: Context, r: Request, rest: string)
    requires Sendable(r) && |Printed(r) + rest| < UINT32
    ensures ServerStep(before, Printed(r) + rest) == Take(Decoded(before, r), rest)
  {
    PrintedParses(before, r, rest);
    TakesLength(Decoded(before, r), |Printed(r) + rest|);
  }

  lemma PartWaits(before: Context, r: Request, s: string, later: string)
    requires Sendable(r) && s + later == Printed(r) && later != []
    ensures ServerStep(before, s) == Wait
  {
    CutIsIncomplete(before, r.ctx, r.body, s, later);
  }

  lemma RequestTaken(before: Context, r: Request)
    requires Sendable(r)
    ensures Takes(Server(before), ItemOf(before, r))
  {
    PrintedParses(before, r, "");
    forall s, rest | s == Printed(r) + rest && |s| < UINT32
      ensures Server(before)(s) == Take(Decoded(before, r), rest)
    {
      WholeTaken(before, r, rest);
    }
    forall s, later | s + later == Printed(r) && later != [] ensures Server(before)(s) == Wait {
      PartWaits(before, r, s, later);
    }
  }

  lemma RequestsTaken(before: Context, rs: seq<Request>)
    requires AllSendable(rs)
    ensures TakesAll(Server(before), Items(before, rs))
  {
    assert ServerStep(before, "") == Wait;
    var items := Items(before, rs);
    forall k | 0 <= k < |items| ensures Takes(Server(before), items[k]) { RequestTaken(before, rs[k]); }
  }

  /** The requests that have been decoded, in order and as many as can be, and what is left of the others. */
  ghost predicate Served(before: Context, rs: seq<Request>, chunks: seq<string>, later: string, r: Progress<Outcome>)
    requires AllSendable(rs)
  {
    InOrder(Items(before, rs), r, later) && Counted(Items(before, rs), chunks, 0, |r.outs|)
  }

  lemma ServedWithoutException(before: Context, rs: seq<Request>, chunks: seq<string>, later: string,
                               r: Progress<Outcome>)
    requires AllSendable(rs) && Served(before, rs, chunks, later, r)
    ensures Exception !in r.outs
  {
    forall k | 0 <= k < |r.outs| ensures r.outs[k] != Exception { assert r.outs[k] == Items(before, rs)[k].out; }
  }

  /**
    Requests cut into chunks in any way: they are decoded in order, none lost and
    none twice, as many as there are whole ones and read events for, and no whole
    one is kept waiting exactly if no chunk completes two.
   */
  lemma RequestsInPieces(before: Context, rs: seq<Request>, chunks: seq<string>, later: string)
    requires AllSendable(rs) && |Wire(rs)| < UINT32 && Concat(chunks) + later == Wire(rs)
    ensures Served(before, rs, chunks, later, Arriving(Server(before), chunks, ""))
    ensures Prompt(Server(before), chunks, "") <==> OneAtATime(Items(before, rs), chunks, 0)
  {
    var items := Items(before, rs);
    RequestsTaken(before, rs);
    StreamIsWire(before, rs);
    assert "" + Concat(chunks) == Concat(chunks);
    NothingWhole(Server(before), items);
    ArrivingInOrder(Server(before), items, chunks, "", later);
    ArrivingCounted(Server(before), items, chunks, "", later);
    PromptIff(Server(before), items, chunks, "", later);
  }

  /** Of two requests in one chunk the second is kept waiting. */
  lemma SecondWaits(before: Context, r: Request, q: Request)
    requires Sendable(r) && Sendable(q) && |Printed(r) + Printed(q)| < UINT32
    ensures Arriving(Server(before), [Printed(r) + Printed(q)], "") == Progress([Decoded(before, r)], Printed(q))
  {
    var s := Printed(r) + Printed(q);
    WholeTaken(before, r, Printed(q));
    assert "" + s == s && [s][1..] == [];
    assert Server(before)(s) == Take(Decoded(before, r), Printed(q));
  }
}
