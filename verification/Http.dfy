/**
  The HTTP request codec: a printer and a parser for the subset of RFC 9112
  (sections 3, 5 and 6.3) that the server understands.
 */
module Http {

  import opened Search
  import opened Splitting
  import opened Decimal
  import opened HttpTables

  datatype Context = Context(
    verb: int,
    uri: string,
    version: string,
    startLine: string,
    headers: map<int, string>,
    payload: string,
    contentEncoding: int,
    contentLength: int)

  lemma Splitters()
    ensures Splitter(CRLF) && Splitter(" ") && Splitter(", ")
    ensures NulSafe(CRLF_CRLF)
  {
  }

  // ----- header lines

  ghost predicate IsColon(line: string, c: int) {
    && -1 <= c < |line|
    && (c >= 0 ==> line[c] == ':')
    && forall i :: 0 <= i < (if c < 0 then |line| else c) ==> line[i] != ':'
  }

  function ColonFrom(line: string, i: nat): int
    requires i <= |line|
    decreases |line| - i
  {
    if i == |line| then -1 else if line[i] == ':' then i else ColonFrom(line, i + 1)
  }

  lemma {:induction false} ColonFound(line: string, i: nat, c: int)
    requires i <= |line| && IsColon(line, c) && (c >= 0 ==> i <= c)
    ensures ColonFrom(line, i) == c
    decreases |line| - i
  {
    if i < |line| && i != c { ColonFound(line, i + 1, c); }
  }

  function Colon(line: string): int { ColonFrom(line, 0) }

  datatype Fields =
    | Read(headers: map<int, string>)
    | NoColon(headers: map<int, string>)
    | OutOfRange  // `substr` past the end throws: a known name with nothing after its colon

  function ReadLine(line: string, headers: map<int, string>): Fields {
    var c := Colon(line);
    if c < 0 || c >= |line| then NoColon(headers)
    else match FieldOf(line[..c])
      case None => Read(headers)
      case Some(f) => if c + 2 > |line| then OutOfRange else Read(headers[f := line[c + 2..]])
  }

  /** The header lines in order; the first bad one ends it. */
  function ReadLines(lines: seq<string>, headers: map<int, string>): Fields
    decreases lines
  {
    if lines == [] then Read(headers) else
    var r := ReadLine(lines[0], headers);
    if r.Read? then ReadLines(lines[1..], r.headers) else r
  }

  // ----- the start line

  datatype Handled = Handled(status: int, ctx: Context)

  function FirstSupported(encodings: seq<string>): int {
    if encodings == [] then IDENTITY else
    var e := EncodingOf(encodings[0]);
    if e.Some? && EncodingSupported(e.value) then e.value else FirstSupported(encodings[1..])
  }

  ghost function Negotiated(headers: map<int, string>): int {
    Splitters();
    if ACCEPT_ENCODING in headers then FirstSupported(Split(headers[ACCEPT_ENCODING], ", ")) else IDENTITY
  }

  ghost function HandleFields(ctx: Context, fields: seq<string>): Handled {
    if |fields| != 3 then Handled(BAD_REQUEST, ctx) else
    match MethodOf(fields[0])
    case None => Handled(METHOD_NOT_ALLOWED, ctx)
    case Some(m) =>
      if fields[1] == [] || fields[1][0] != '/' then Handled(BAD_REQUEST, ctx.(verb := m))
      else Handled(OK, ctx.(verb := m, uri := fields[1][1..], version := fields[2],
                            contentEncoding := Negotiated(ctx.headers)))
  }

  ghost function Handle(ctx: Context): Handled {
    Splitters();
    HandleFields(ctx, Split(ctx.startLine, " "))
  }

  // ----- the message

  datatype Outcome =
    | Returned(status: int, length: int, ctx: Context)
    | Exception

  function Cleared(ctx: Context): Context {
    ctx.(uri := "", headers := map[], startLine := "", payload := "")
  }

  function Declared(headers: map<int, string>): int {
    if CONTENT_LENGTH in headers then Atoi(headers[CONTENT_LENGTH]) else 0
  }

  /** What follows once the head, of `head` bytes with its empty line, has been read. */
  ghost function Body(ctx: Context, message: string, head: nat): Outcome
    requires head <= |message|
  {
    var n := Declared(ctx.headers);
    if n > |message| - head then Returned(INCOMPLETE, 0, ctx)
    else
      var r := Handle(ctx.(payload := Substr(message, head, n)));
      Returned(r.status, head + n, r.ctx)
  }

  ghost function ParseLines(ctx: Context, lines: seq<string>, message: string, head: nat): Outcome
    requires lines != [] && head <= |message|
  {
    var started := Cleared(ctx).(startLine := lines[0]);
    match ReadLines(lines[1..], map[])
    case OutOfRange => Exception
    case NoColon(m) => Returned(BAD_REQUEST, 0, started.(headers := m))
    case Read(m) => Body(started.(headers := m), message, head)
  }

  ghost function Parse(ctx: Context, message: string): Outcome {
    Splitters();
    var d := First(message, CRLF_CRLF);
    if d < 0 then Returned(INCOMPLETE, 0, ctx)
    else ParseLines(ctx, Split(message[..d], CRLF), message, d + 4)
  }

  // ----- the printer

  function HeaderLine(name: string, value: string): string {
    name + ": " + value
  }

  /** One line per known header, in the order of the map's keys; unknown keys print nothing. */
  function HeaderLines(headers: map<int, string>, f: nat): seq<string>
    requires f <= FIELDS
    decreases FIELDS - f
  {
    if f == FIELDS then [] else
    (if f in headers then [HeaderLine(FieldName(f).value, headers[f])] else []) + HeaderLines(headers, f + 1)
  }

  function Terminated(lines: seq<string>): string {
    if lines == [] then [] else lines[0] + CRLF + Terminated(lines[1..])
  }

  /** The context after `ComposeHeaders`: start line and Content-Length are filled in. */
  function Prepared(ctx: Context): Context
    requires MethodName(ctx.verb).Some?
  {
    ctx.(startLine := MethodName(ctx.verb).value + " " + ctx.uri + " " + ctx.version,
         headers := ctx.headers[CONTENT_LENGTH := ToString(ctx.contentLength)])
  }

  function Lines(ctx: Context): seq<string>
    requires MethodName(ctx.verb).Some?
  {
    [Prepared(ctx).startLine] + HeaderLines(Prepared(ctx).headers, 0)
  }

  /** The head of a message, with the empty line that ends it. */
  function Head(ctx: Context): string
    requires MethodName(ctx.verb).Some?
  {
    Terminated(Lines(ctx)) + CRLF
  }
}
