/**
  A connection's handlers, each taken as one atomic step, and the poll-out bit by
  which the connection asks to be told that its socket can be written again.
 */
module Connections {

  import opened Basics
  import opened Kernel
  import opened Buffers
  import opened FileBuffers

  const POLL_IN: bv32 := 0x1
  const POLL_OUT: bv32 := 0x4
  const POLL_RDHUP: bv32 := 0x2000

  class Channel {
    var events: bv32

    /** On Linux the poll-out bit is set from the start. */
    constructor ()
      ensures IsWriting() && events & POLL_IN != 0
    {
      events := POLL_IN | POLL_RDHUP | POLL_OUT;
    }

    predicate IsWriting()
      reads this
    {
      events & POLL_OUT != 0
    }

    method EnableWrite(enable: bool)
      modifies this
      ensures IsWriting() <==> enable
      ensures events & !POLL_OUT == old(events) & !POLL_OUT
    {
      if enable { events := events | POLL_OUT; } else { events := events & !POLL_OUT; }
    }
  }

  /** The write buffer: plain, or able to send files. */
  datatype Sink = Plain(b: Buffer<char>) | File(f: FileBuffer)

  class Connection {
    const channel: Channel
    const sock: Socket<char>
    const sink: Sink
    var shutDown: bool
    var closed: bool

    ghost function Buffers(): set<object> {
      match sink case Plain(b) => {b} case File(f) => {f, f.buffer}
    }

    ghost predicate Valid()
      reads Buffers()
    {
      match sink case Plain(b) => b.Valid() case File(f) => f.Valid()
    }

    ghost function Unsent(): string
      reads Buffers()
      requires Valid()
    {
      match sink case Plain(b) => b.Contents() case File(f) => f.Unsent()
    }

    /** The stream this connection stands for: what is on the wire, then what is to follow. */
    ghost function Stream(): string
      reads Buffers(), sock
      requires Valid()
    {
      sock.wire + Unsent()
    }

    ghost predicate Drained()
      reads Buffers()
      requires Valid()
    {
      match sink case Plain(b) => b.Contents() == [] case File(f) => f.Drained()
    }

    ghost function Pending(): (b: Backlog)
      reads Buffers()
      requires Valid()
      ensures b == Backlog(0, []) <==> Drained()
    {
      match sink case Plain(b) => Backlog(|b.Contents()|, []) case File(f) => f.Pending()
    }

    /** The backlog once `n` bytes have been written to the buffer. */
    ghost function Plus(b: Backlog, n: nat): Backlog {
      if sink.Plain? then Backlog(b.inner + n, b.jobs) else Backlog(b.inner, b.jobs + [HeaderOf(n)])
    }

    /** What a flush leaves if the kernel answers with `script`. */
    ghost function LeftBy(script: seq<int>): Backlog
      reads Buffers()
      requires Valid()
    {
      FlushedFiles(Pending(), script).left
    }

    /** The connection waits for the socket exactly if it has something to send. */
    ghost predicate InterestMatches()
      reads Buffers(), channel
      requires Valid()
    {
      channel.IsWriting() <==> !Drained()
    }

    ghost predicate Room(n: nat)
      reads Buffers()
    {
      n < UINT32 && (sink.Plain? ==> sink.b.writeIndex + n < UINT32)
    }

    ghost predicate RoomForAll(output: seq<string>)
      reads Buffers()
    {
      && (forall k :: 0 <= k < |output| ==> |output[k]| < UINT32)
      && (sink.Plain? ==> sink.b.writeIndex + |Concat(output)| < UINT32)
    }

    /** How far the plain buffer's write index may move before it would wrap. */
    ghost function Used(): nat
      reads Buffers()
    {
      if sink.Plain? then sink.b.writeIndex else 0
    }

    constructor (sock: Socket<char>, disk: Disk, sendFile: bool)
      requires forall f :: f in disk ==> |disk[f]| < INT32
      ensures Valid() && !shutDown && !closed && this.sock == sock && (sink.File? <==> sendFile)
      ensures Unsent() == [] && Drained() && channel.IsWriting() && Used() == 0
      ensures fresh(channel) && fresh(Buffers())
    {
      this.sock := sock;
      channel := new Channel();
      if sendFile {
        var f := new FileBuffer(disk);
        sink := File(f);
      } else {
        var b := new Buffer<char>();
        sink := Plain(b);
      }
      shutDown, closed := false, false;
    }

    /** `write_buffer_->Write`. */
    method SinkWrite(buf: string)
      requires Valid() && Room(|buf|)
      modifies Buffers()
      ensures Valid() && Stream() == old(Stream()) + buf
      ensures Pending() == Plus(old(Pending()), |buf|)
      ensures shutDown == old(shutDown) && closed == old(closed) && sock.script == old(sock.script)
      ensures Used() <= old(Used()) + |buf|
    {
      assert sock.wire + (Unsent() + buf) == sock.wire + Unsent() + buf;
      match sink {
        case Plain(b) => b.Write(buf);
        case File(f) => f.Write(buf);
      }
    }

    /** `write_buffer_->Empty`. */
    predicate SinkEmpty()
      reads Buffers()
      requires Valid()
      ensures SinkEmpty() <==> (if sink.Plain? then Pending().inner == 0 else Pending().jobs == [])
    {
      match sink case Plain(b) => b.Empty() case File(f) => f.Empty()
    }

    method WriteBuffer() returns (ret: int)
      requires Valid()
      modifies Buffers(), sock
      ensures Valid() && Stream() == old(Stream())
      ensures FileFlushing(Pending(), sock.script) == FlushedFiles(old(Pending()), old(sock.script))
      ensures ret == if Drained() then 0 else -1
      ensures shutDown == old(shutDown) && closed == old(closed)
      ensures Used() <= old(Used())
    {
      match sink {
        case Plain(b) => ret := b.WriteBufferToFd(sock);
        case File(f) => ret := f.WriteBufferToFd(sock);
      }
    }

    method EnableWrite(ret: int)
      requires Valid()
      modifies channel
      ensures closed == old(closed)
      ensures channel.IsWriting() <==> ret < 0
      ensures Valid() && Stream() == old(Stream()) && Pending() == old(Pending()) && Used() == old(Used())
    {
      channel.EnableWrite(ret < 0);
    }

    /** `EnableWrite(WriteBuffer())`. */
    method Flush()
      requires Valid()
      modifies Buffers(), sock, channel
      ensures Valid() && Stream() == old(Stream()) && Pending() == old(LeftBy(sock.script)) && InterestMatches()
      ensures Used() <= old(Used()) && shutDown == old(shutDown)
    {
      var ret := WriteBuffer();
      EnableWrite(ret);
    }

    method Send(buf: string)
      requires Valid() && Room(|buf|)
      modifies Buffers(), sock, channel
      ensures Valid() && Used() <= old(Used()) + |buf| && shutDown == old(shutDown)
      ensures old(shutDown) ==> unchanged(Buffers(), sock, channel)
      ensures !old(shutDown) ==> Stream() == old(Stream()) + buf && InterestMatches()
      ensures !old(shutDown) ==> Pending() == FlushedFiles(Plus(old(Pending()), |buf|), old(sock.script)).left
    {
      if shutDown { return; }
      SinkWrite(buf);
      Flush();
    }

    method SendFile(header: string, filename: string)
      requires Valid() && |header| < UINT32
      modifies Buffers(), sock, channel
      ensures Valid() && Used() <= old(Used()) && shutDown == old(shutDown)
      ensures old(shutDown) || sink.Plain? ==> unchanged(Buffers(), sock, channel)
      ensures !old(shutDown) && sink.File? ==>
                Stream() == old(Stream()) + Entry(sink.f.disk, FileInfo(header, filename)) && InterestMatches()
      ensures !old(shutDown) && sink.File? ==>
                var jobs := old(Pending().jobs) + EntryJobs(sink.f.disk, FileInfo(header, filename));
                Pending() == FlushedFiles(Backlog(old(Pending().inner), jobs), old(sock.script)).left
    {
      if shutDown || sink.Plain? { return; }
      ghost var e := Entry(sink.f.disk, FileInfo(header, filename));
      sink.f.AddFile(header, filename);
      assert sock.wire + (old(Unsent()) + e) == sock.wire + old(Unsent()) + e;
      Flush();
    }

    // ----- the write event

    /** What the user's write callback writes into the buffer, write by write, leaves it as it was. */
    ghost predicate AddsNothing(output: seq<string>) {
      if sink.Plain? then Concat(output) == [] else output == []
    }

    /** The backlog once the callback's writes have been added. */
    ghost function PlusAll(b: Backlog, output: seq<string>): Backlog
      decreases output
    {
      if output == [] then b else PlusAll(Plus(b, |output[0]|), output[1..])
    }

    lemma {:induction false} PlusAllIs(b: Backlog, output: seq<string>)
      ensures var r := PlusAll(b, output);
              if sink.Plain? then r == Backlog(b.inner + |Concat(output)|, b.jobs)
              else r.inner == b.inner && |r.jobs| == |b.jobs| + |output|
      decreases output
    {
      if output != [] { PlusAllIs(Plus(b, |output[0]|), output[1..]); }
    }

    /** What is left once the event has been handled. */
    ghost function AfterEvent(output: seq<string>, script: seq<int>): Backlog
      reads Buffers()
      requires Valid()
    {
      PlusAll(LeftBy(script), output)
    }

    /** The poll-out bit will be right: something is left over, or nothing is added after a complete flush. */
    ghost predicate WillMatch(output: seq<string>, script: seq<int>)
      reads Buffers()
      requires Valid()
    {
      LeftBy(script) != Backlog(0, []) || AddsNothing(output)
    }

    /** A connection that is shutting down will find its queue empty. */
    ghost predicate WillClose(output: seq<string>, script: seq<int>)
      reads Buffers()
      requires Valid()
    {
      AddsNothing(output) && if sink.Plain? then LeftBy(script).inner == 0 else LeftBy(script).jobs == []
    }

    /** It will do so with bytes in the file buffer's inner buffer, where `Empty` does not look. */
    ghost predicate WillLose(output: seq<string>, script: seq<int>)
      reads Buffers()
      requires Valid()
    {
      sink.File? && output == [] && Starves(Pending(), script)
    }

    /** The callback, which is handed the buffer and may write to it any number of times. */
    method SinkWriteAll(output: seq<string>)
      requires Valid() && RoomForAll(output)
      modifies Buffers()
      ensures Valid() && Stream() == old(Stream()) + Concat(output)
      ensures Pending() == PlusAll(old(Pending()), output)
      ensures shutDown == old(shutDown) && closed == old(closed)
      ensures Used() <= old(Used()) + |Concat(output)|
      decreases |output|
    {
      if output == [] { return; }
      ghost var before := Stream();
      SinkWrite(output[0]);
      Regroup(before, output[0], Concat(output[1..]));
      SinkWriteAll(output[1..]);
    }

    /** The flush, and what the callback then writes into the buffer. */
    method FlushThenCallback(output: seq<string>) returns (ret: int)
      requires Valid() && RoomForAll(output)
      modifies Buffers(), sock
      ensures Valid() && shutDown == old(shutDown) && closed == old(closed)
      ensures ret == if old(LeftBy(sock.script)) == Backlog(0, []) then 0 else -1
      ensures Stream() == old(Stream()) + Concat(output)
      ensures Pending() == old(AfterEvent(output, sock.script))
      ensures Used() <= old(Used()) + |Concat(output)|
    {
      ret := WriteBuffer();
      SinkWriteAll(output);
    }

    method OnCloseCallback()
      requires Valid()
      modifies `closed
      ensures closed && shutDown == old(shutDown) && Valid() && Pending() == old(Pending())
      ensures Stream() == old(Stream()) && Unsent() == old(Unsent()) && Used() == old(Used())
    {
      closed := true;
    }

    /** The flush's result is taken before the callback and used after it. */
    method OnWriteCallback(output: seq<string>) returns (ret: int)
      requires Valid() && RoomForAll(output)
      modifies `closed, Buffers(), sock, channel
      ensures Valid() && shutDown == old(shutDown)
      ensures Stream() == old(Stream()) + Concat(output)
      ensures Pending() == old(AfterEvent(output, sock.script))
      ensures old(!shutDown || !WillClose(output, sock.script)) ==>
                && closed == old(closed) && (channel.IsWriting() <==> old(LeftBy(sock.script)) != Backlog(0, []))
                && (InterestMatches() <==> old(WillMatch(output, sock.script)))
      ensures old(shutDown && WillClose(output, sock.script)) ==>
                closed && (Unsent() != [] <==> old(WillLose(output, sock.script)))
      ensures Used() <= old(Used()) + |Concat(output)|
    {
      PlusAllIs(LeftBy(sock.script), output);
      ret := FlushThenCallback(output);
      if shutDown && SinkEmpty() {
        OnCloseCallback();
        return;
      }
      EnableWrite(ret);
    }

    /** The peer has closed its side. */
    method ShutDown()
      requires Valid()
      modifies `shutDown
      ensures shutDown && closed == old(closed) && Valid() && Pending() == old(Pending())
    {
      shutDown := true;
    }

    /** The close that loses bytes. */
    method CloseStarved()
      requires Valid() && shutDown && sink.File? && Starves(Pending(), sock.script)
      modifies `closed, Buffers(), sock, channel
      ensures Valid() && closed && Unsent() != []
    {
      var _ := OnWriteCallback([]);
    }

    /** With nothing to flush, whatever the callback adds is stranded. */
    method CallbackOnDrained(output: seq<string>)
      requires Valid() && !shutDown && Drained() && RoomForAll(output) && !AddsNothing(output)
      modifies `closed, Buffers(), sock, channel
      ensures Valid() && !shutDown && !Drained() && !channel.IsWriting()
    {
      assert LeftBy(sock.script) == Backlog(0, []) by { NothingToFlush(Pending(), sock.script); }
      var _ := OnWriteCallback(output);
    }

    /** The poll-out bit is right whatever the kernel answers exactly if the callback adds nothing. */
    lemma AlwaysMatchesIff(output: seq<string>)
      requires Valid()
      ensures (forall script :: WillMatch(output, script)) <==> AddsNothing(output)
    {
      Drainable(Pending());
      assert AddsNothing(output) || !WillMatch(output, GenerousFor(Pending()));
    }

    /** No kernel makes the close lose bytes exactly if it is not a text in a file buffer that is sent last. */
    lemma NeverLosesIff(output: seq<string>)
      requires Valid()
      ensures (forall script :: !WillLose(output, script)) <==>
              !(sink.File? && output == [] && EndsInText(Pending()))
    {
      CanStarveIff(Pending());
      assert forall script :: WillLose(output, script) <==>
               sink.File? && output == [] && Starves(Pending(), script);
    }

    // ----- whole runs

    /** The bytes that an event adds to the stream. */
    ghost function Adds(e: Event): string {
      match e
      case SendData(buf) => buf
      case SendPath(header, filename) =>
        if sink.File? then Entry(sink.f.disk, FileInfo(header, filename)) else []
      case Writable => []
    }

    ghost function AddsAll(es: seq<Event>): string {
      if es == [] then [] else Adds(es[0]) + AddsAll(es[1..])
    }

    /** A handler that flushes: `SendFile` on a plain connection returns at once. */
    ghost predicate Flushes(e: Event) {
      e.SendPath? ==> sink.File?
    }

    /** Each event fits its 32-bit size, and a plain buffer's write index does not wrap. */
    ghost predicate Fits(es: seq<Event>)
      reads Buffers()
    {
      && (forall k :: 0 <= k < |es| ==> Size(es[k]) < UINT32)
      && (sink.Plain? ==> sink.b.writeIndex + AllBuffered(es) < UINT32)
    }

    method Handle(e: Event)
      requires Valid() && !shutDown && Size(e) < UINT32 && (sink.Plain? ==> Used() + Buffered(e) < UINT32)
      modifies `closed, Buffers(), sock, channel
      ensures Valid() && !shutDown && Used() <= old(Used()) + Buffered(e)
      ensures Stream() == old(Stream()) + Adds(e)
      ensures Flushes(e) || old(InterestMatches()) ==> InterestMatches()
    {
      match e {
        case SendData(buf) => Send(buf);
        case SendPath(header, filename) => SendFile(header, filename);
        case Writable => var _ := OnWriteCallback([]);
      }
    }

    /**
      Over every run of the handlers, whatever the kernel answers: the stream is what
      was sent, in order and once, and nothing is left stranded.
     */
    method Serve(es: seq<Event>)
      requires Valid() && !shutDown && Fits(es)
      requires InterestMatches() || (es != [] && Flushes(es[0]))
      modifies `closed, Buffers(), sock, channel
      ensures Valid() && !shutDown
      ensures Stream() == old(Stream()) + AddsAll(es)
      ensures InterestMatches()
      decreases |es|
    {
      if es == [] { return; }
      ghost var before := Stream();
      Handle(es[0]);
      Serve(es[1..]);
      Regroup(before, Adds(es[0]), AddsAll(es[1..]));
    }
  }

  lemma NothingToFlush(b: Backlog, script: seq<int>)
    requires b == Backlog(0, [])
    ensures FlushedFiles(b, script) == FileFlushing(b, script)
  {
  }

  /** A callback that writes after a flush that drained everything leaves its byte stranded. */
  method CallbackStrandsByte(sock: Socket<char>) returns (c: Connection)
    modifies sock
    ensures c.Valid() && !c.shutDown && !c.Drained() && !c.channel.IsWriting()
  {
    c := new Connection(sock, map[], false);
    assert Concat(["x"]) == "x" by { assert ["x"][1..] == []; }
    c.CallbackOnDrained(["x"]);
  }

  lemma RefusedByte(b: Backlog)
    requires b == Backlog(0, [HeaderOf(1)])
    ensures FlushedFiles(b, []).left == Backlog(1, [])
  {
    assert Flushed(1, []).left == 1;
  }

  /** A file connection with one byte to send. */
  method WithByte(sock: Socket<char>) returns (c: Connection)
    ensures fresh(c) && fresh(c.channel) && fresh(c.Buffers()) && c.sock == sock
    ensures c.Valid() && c.sink.File? && c.Pending() == Backlog(0, [HeaderOf(1)])
  {
    c := new Connection(sock, map[], true);
    c.SinkWrite("x");
  }

  /** A connection that is shutting down closes although a byte is left, if the kernel refuses it. */
  method CloseLosesByte(sock: Socket<char>) returns (c: Connection)
    requires sock.script == []
    modifies sock
    ensures c.Valid() && c.closed && c.Unsent() != []
  {
    c := WithByte(sock);
    c.ShutDown();
    RefusedByte(c.Pending());
    c.CloseStarved();
  }

  datatype Event = SendData(buf: string) | SendPath(header: string, filename: string) | Writable

  function Size(e: Event): nat {
    match e case SendData(buf) => |buf| case SendPath(header, _) => |header| case Writable => 0
  }

  /** The bytes that an event puts into a plain buffer. */
  function Buffered(e: Event): nat {
    if e.SendData? then |e.buf| else 0
  }

  function AllBuffered(es: seq<Event>): nat {
    if es == [] then 0 else Buffered(es[0]) + AllBuffered(es[1..])
  }
}
