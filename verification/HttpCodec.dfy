/** The request object, whose methods fill in its context, and the step that reads a request off a buffer. */
module HttpCodec {

  import opened Basics
  import opened Search
  import opened Splitting
  import opened Decimal
  import opened HttpTables
  import opened Http
  import opened Buffers
  import opened Stepping
  import opened HttpStream

  method SplitAt(str: string, breaking: string) returns (ps: seq<string>)
    requires Splitter(breaking)
    ensures ps == Split(str, breaking)
  {
    ps := SplitString(str, breaking);
    SplitUnique(breaking, ps, Split(str, breaking));
  }

  method FindColon(line: string) returns (position: int)
    ensures position == Colon(line)
    ensures IsColon(line, position)
  {
    for j := 0 to |line|
      invariant ColonFrom(line, 0) == ColonFrom(line, j)
      invariant forall i :: 0 <= i < j ==> line[i] != ':'
    {
      if line[j] == ':' { return j; }
    }
    return -1;
  }

  method ChooseEncoding(accepted: seq<string>) returns (encoding: int)
    ensures encoding == FirstSupported(accepted)
  {
    encoding := IDENTITY;
    ghost var all := FirstSupported(accepted);
    for i := 0 to |accepted|
      invariant all == FirstSupported(accepted[i..])
    {
      assert accepted[i..][0] == accepted[i] && accepted[i..][1..] == accepted[i + 1..];
      var e := EncodingOf(accepted[i]);
      if e.Some? && EncodingSupported(e.value) { return e.value; }
    }
  }

  function NewContext(junk: Context): Context {
    junk.(version := "HTTP/1.1", headers := map[CONNECTION := "close"])
  }

  class HttpRequest {
    var ctx: Context

    /** The fields that the source leaves uninitialised are those of `junk`. */
    constructor (junk: Context)
      ensures ctx == NewContext(junk) && ctx.version == "HTTP/1.1" && ctx.headers == map[CONNECTION := "close"]
    {
      ctx := NewContext(junk);
    }

    method HandleMessage() returns (status: int)
      modifies this
      ensures Handle(old(ctx)) == Handled(status, ctx)
    {
      Splitters();
      var fields := SplitAt(ctx.startLine, " ");
      if |fields| != 3 { return BAD_REQUEST; }
      var verb := MethodOf(fields[0]);
      if verb.None? { return METHOD_NOT_ALLOWED; }
      ctx := ctx.(verb := verb.value);
      if fields[1] == [] || fields[1][0] != '/' { return BAD_REQUEST; }
      ctx := ctx.(uri := fields[1][1..], version := fields[2], contentEncoding := IDENTITY);
      if ACCEPT_ENCODING in ctx.headers {
        var encodings := SplitAt(ctx.headers[ACCEPT_ENCODING], ", ");
        var encoding := ChooseEncoding(encodings);
        ctx := ctx.(contentEncoding := encoding);
      }
      return OK;
    }

    /** One header line, put into the context's map. */
    method ReadHeader(line: string) returns (r: Fields)
      modifies this
      ensures r == ReadLine(line, old(ctx.headers))
      ensures ctx == if r.Read? then old(ctx).(headers := r.headers) else old(ctx)
    {
      var colon := FindColon(line);
      if colon == -1 { return NoColon(ctx.headers); }
      var f := FieldOf(line[..colon]);
      if f.Some? {
        if colon + 2 > |line| { return OutOfRange; }
        ctx := ctx.(headers := ctx.headers[f.value := line[colon + 2..]]);
      }
      return Read(ctx.headers);
    }

    method ReadHeaders(lines: seq<string>) returns (r: Fields)
      requires lines != [] && ctx.headers == map[]
      modifies this
      ensures r == ReadLines(lines[1..], map[])
      ensures !r.OutOfRange? ==> ctx == old(ctx).(startLine := lines[0], headers := r.headers)
    {
      ghost var all := ReadLines(lines[1..], map[]);
      ctx := ctx.(startLine := lines[0]);
      for i := 1 to |lines|
        invariant all == ReadLines(lines[i..], ctx.headers)
        invariant ctx == old(ctx).(startLine := lines[0], headers := ctx.headers)
      {
        assert lines[i..][0] == lines[i] && lines[i..][1..] == lines[i + 1..];
        r := ReadHeader(lines[i]);
        if !r.Read? { return; }
      }
      r := Read(ctx.headers);
    }

    method ParseMessage(message: string) returns (threw: bool, status: int, length: int)
      modifies this
      ensures match Parse(old(ctx), message)
              case Exception => threw
              case Returned(s, l, c) => !threw && status == s && length == l && ctx == c
    {
      threw, status, length := false, INCOMPLETE, 0;
      Splitters();
      var breaks, _ := FindSubstr(message, CRLF_CRLF);
      OccurrencesHead(message, CRLF_CRLF);
      if |breaks| < 1 {
        FirstUnique(message, CRLF_CRLF, -1);
        return;
      }
      var d := breaks[0];
      FirstUnique(message, CRLF_CRLF, d);
      var lines := SplitAt(message[..d], CRLF);
      ctx := Cleared(ctx);
      var r := ReadHeaders(lines);
      if r.OutOfRange? { return true, INCOMPLETE, 0; }
      if r.NoColon? { return false, BAD_REQUEST, 0; }
      status, length := ReadBody(message, d + 4);
    }

    method ReadBody(message: string, head: nat) returns (status: int, length: int)
      requires head <= |message|
      modifies this
      ensures Body(old(ctx), message, head) == Returned(status, length, ctx)
    {
      var payloadLength := |message| - head;
      if CONTENT_LENGTH in ctx.headers {
        var contentLength := Atoi(ctx.headers[CONTENT_LENGTH]);
        if contentLength > payloadLength { return INCOMPLETE, 0; }
        payloadLength := contentLength;
      } else {
        payloadLength := 0;
      }
      length := head + payloadLength;
      ctx := ctx.(payload := Substr(message, head, payloadLength));
      status := HandleMessage();
    }

    method PrepareMessage() returns (ok: bool)
      modifies this
      ensures ok <==> MethodName(old(ctx).verb).Some?
      ensures ctx == if ok then old(ctx).(startLine := Prepared(old(ctx)).startLine) else old(ctx)
    {
      var name := MethodName(ctx.verb);
      if name.None? { return false; }
      ctx := ctx.(startLine := name.value + " " + ctx.uri + " " + ctx.version);
      return true;
    }

    /** Appends the head of the message. */
    method ComposeHeaders(message: string) returns (ok: bool, composed: string)
      modifies this
      ensures ok <==> MethodName(old(ctx).verb).Some?
      ensures if ok then ctx == Prepared(old(ctx)) && composed == message + Head(old(ctx))
              else ctx == old(ctx) && composed == message
    {
      ok := PrepareMessage();
      composed := message;
      if !ok { return; }
      composed := composed + (ctx.startLine + CRLF);
      ctx := ctx.(headers := ctx.headers[CONTENT_LENGTH := ToString(ctx.contentLength)]);
      var printed := PrintHeaders(ctx.headers);
      composed := composed + printed + CRLF;
      HeadParts(message, ctx.startLine, HeaderLines(ctx.headers, 0));
    }
  }

  lemma HeadParts(message: string, start: string, lines: seq<string>)
    ensures message + (start + CRLF) + Terminated(lines) + CRLF == message + (Terminated([start] + lines) + CRLF)
  {
  }

  lemma TerminatedStep(line: string, lines: seq<string>, printed: string)
    ensures printed + Terminated([line] + lines) == printed + (line + CRLF) + Terminated(lines)
  {
  }

  /** The loop over the map, whose keys come in ascending order; keys without a name print nothing. */
  method PrintHeaders(headers: map<int, string>) returns (printed: string)
    ensures printed == Terminated(HeaderLines(headers, 0))
  {
    printed := [];
    ghost var all := Terminated(HeaderLines(headers, 0));
    for f := 0 to FIELDS
      invariant all == printed + Terminated(HeaderLines(headers, f))
    {
      var name := FieldName(f);
      KnownFields(f);
      if f in headers {
        var line := HeaderLine(name.value, headers[f]);
        TerminatedStep(line, HeaderLines(headers, f + 1), printed);
        printed := printed + (line + CRLF);
      } else {
        assert [] + HeaderLines(headers, f + 1) == HeaderLines(headers, f + 1);
      }
    }
  }

  /** Peek everything, parse, and take off what was parsed. */
  method ClientStep(request: HttpRequest, buffer: Buffer<char>) returns (r: Outcome)
    requires buffer.Valid()
    modifies request, buffer`readIndex, buffer`writeIndex
    ensures r == Parse(old(request.ctx), old(buffer.Contents())) && (r.Returned? ==> request.ctx == r.ctx)
    ensures buffer.Valid() && buffer.Contents() == old(buffer.Contents())[StepTakes(r, |old(buffer.Contents())|)..]
    ensures buffer.writeIndex <= old(buffer.writeIndex)
  {
    var message := PeekAll(buffer);
    var threw, status, length := request.ParseMessage(message);
    r := if threw then Exception else Returned(status, length, request.ctx);
    if threw || status == INCOMPLETE { return; }
    TakeOff(buffer, length, r);
  }

  method PeekAll(buffer: Buffer<char>) returns (message: string)
    requires buffer.Valid()
    ensures message == buffer.Contents()
  {
    var readable := buffer.ReadableBytes();
    var n;
    n, message := buffer.Peek(readable);
    assert n == |buffer.Contents()|;
  }

  method TakeOff(buffer: Buffer<char>, length: int, ghost r: Outcome)
    requires buffer.Valid() && r.Returned? && r.status != INCOMPLETE && r.length == length
    modifies buffer`readIndex, buffer`writeIndex
    ensures buffer.Valid() && buffer.Contents() == old(buffer.Contents())[StepTakes(r, |old(buffer.Contents())|)..]
    ensures buffer.writeIndex <= old(buffer.writeIndex)
  {
    var n := length % UINT32;
    FitsUint32(n);
    buffer.HaveRead(n);
  }

  // ----- whole runs

  /** The step, with a new request object each time, as long as it takes something off. */
  method ClientSteps(junk: Context, buffer: Buffer<char>) returns (outcomes: seq<Outcome>, last: Outcome)
    requires buffer.Valid()
    modifies buffer`readIndex, buffer`writeIndex
    ensures buffer.Valid() && Drained(NewContext(junk), old(buffer.Contents())) == Drain(outcomes, buffer.Contents())
    ensures last == Parse(NewContext(junk), buffer.Contents()) && StepTakes(last, |buffer.Contents()|) == 0
  {
    outcomes := [];
    ghost var all := Drained(NewContext(junk), buffer.Contents());
    while true
      invariant buffer.Valid()
      invariant DrainedTo(NewContext(junk), all, outcomes, buffer.Contents())
      decreases |buffer.Contents()|
    {
      ghost var s := buffer.Contents();
      var before := buffer.ReadableBytes();
      last := FreshStep(junk, buffer);
      var after := buffer.ReadableBytes();
      if after == before {
        assert buffer.Contents() == s;
        return;
      }
      DrainedOnce(NewContext(junk), all, outcomes, s);
      outcomes := outcomes + [last];
    }
  }

  /** What is to be drained, once `outcomes` have been seen and `s` is left. */
  ghost predicate DrainedTo(before: Context, all: Drain, outcomes: seq<Outcome>, s: string) {
    var later := Drained(before, s);
    all == Drain(outcomes + later.outcomes, later.rest)
  }

  lemma DrainedOnce(before: Context, all: Drain, outcomes: seq<Outcome>, s: string)
    requires DrainedTo(before, all, outcomes, s) && StepTakes(Parse(before, s), |s|) > 0
    ensures DrainedTo(before, all, outcomes + [Parse(before, s)], s[StepTakes(Parse(before, s), |s|)..])
  {
    var r := Parse(before, s);
    Regroup(outcomes, [r], Drained(before, s[StepTakes(r, |s|)..]).outcomes);
  }

  method FreshStep(junk: Context, buffer: Buffer<char>) returns (r: Outcome)
    requires buffer.Valid()
    modifies buffer`readIndex, buffer`writeIndex
    ensures r == Parse(NewContext(junk), old(buffer.Contents()))
    ensures buffer.Valid() && buffer.Contents() == old(buffer.Contents())[StepTakes(r, |old(buffer.Contents())|)..]
    ensures buffer.writeIndex <= old(buffer.writeIndex)
  {
    var request := new HttpRequest(junk);
    r := ClientStep(request, buffer);
  }

  /** Requests in the buffer and part of another: all are decoded, the last step reports -1, the part stays. */
  method ReadPipelined(junk: Context, buffer: Buffer<char>, ghost rs: seq<Request>, ghost next: Request,
                       ghost s: string, ghost later: string)
    returns (outcomes: seq<Outcome>, last: Outcome)
    requires buffer.Valid() && AllSendable(rs) && Sendable(next) && s + later == Printed(next) && later != []
    requires buffer.Contents() == Wire(rs) + s
    modifies buffer`readIndex, buffer`writeIndex
    ensures outcomes == Expected(NewContext(junk), rs) && Undecided(last)
    ensures buffer.Valid() && buffer.Contents() == s
  {
    Pipelined(NewContext(junk), rs, next, s, later);
    outcomes, last := ClientSteps(junk, buffer);
  }

  /** One read event per chunk: the chunk is written into the buffer, then one step is taken. */
  method ServeChunks(junk: Context, buffer: Buffer<char>, chunks: seq<string>)
    returns (threw: bool, outs: seq<Outcome>)
    requires buffer.Valid() && buffer.writeIndex + |Concat(chunks)| < UINT32
    modifies buffer
    ensures buffer.Valid()
    ensures var r := Arriving(Server(NewContext(junk)), chunks, old(buffer.Contents()));
            (threw <==> Exception in r.outs) && (!threw ==> r == Progress(outs, buffer.Contents()))
    decreases |chunks|
  {
    if chunks == [] { return false, []; }
    buffer.Write(chunks[0]);
    var r := FreshStep(junk, buffer);
    if r.Exception? { return true, []; }
    threw, outs := ServeChunks(junk, buffer, chunks[1..]);
    if r.status != INCOMPLETE { outs := [r] + outs; }
  }

  /**
    Requests that arrive at an empty buffer in any chunks: they are decoded in
    order, as many as there are whole ones and read events for, and what is left
    in the buffer is the rest.
   */
  method ServeRequests(junk: Context, buffer: Buffer<char>, chunks: seq<string>,
                       ghost rs: seq<Request>, ghost later: string)
    returns (threw: bool, outs: seq<Outcome>)
    requires buffer.Valid() && buffer.Contents() == []
    requires AllSendable(rs) && |Wire(rs)| < UINT32 && Concat(chunks) + later == Wire(rs)
    modifies buffer
    ensures !threw && buffer.Valid()
    ensures Served(NewContext(junk), rs, chunks, later, Progress(outs, buffer.Contents()))
  {
    ghost var r := Arriving(Server(NewContext(junk)), chunks, "");
    RequestsInPieces(NewContext(junk), rs, chunks, later);
    ServedWithoutException(NewContext(junk), rs, chunks, later, r);
    threw, outs := ServeChunks(junk, buffer, chunks);
  }
}
