/**
  The output path: a queue of headers and files flushed through a socket that may
  take any part of what it is offered, and the connection's interest in being
  told when the socket can be written again.
 */
module FileBuffers {

  import opened Basics
  import opened Kernel
  import opened Buffers

  const INT32 := 0x8000_0000

  datatype FileInfo = FileInfo(header: string, filename: string)

  /** The readable files by path; a path that cannot be opened is not in the map. */
  type Disk = map<string, string>

  function Content(disk: Disk, filename: string): string {
    if filename != "" && filename in disk then disk[filename] else ""
  }

  /** The bytes that the queued entries stand for. */
  function Rendered(disk: Disk, q: seq<FileInfo>): string {
    if q == [] then "" else Entry(disk, q[0]) + Rendered(disk, q[1..])
  }

  function Entry(disk: Disk, x: FileInfo): string {
    x.header + Content(disk, x.filename)
  }

  lemma EntryIs(disk: Disk, header: string, filename: string)
    ensures var e := Entry(disk, FileInfo(header, filename));
            e == if filename != "" && filename in disk then header + disk[filename] else header
  {
  }

  lemma {:induction false} RenderedSnoc(disk: Disk, q: seq<FileInfo>, x: FileInfo)
    ensures Rendered(disk, q + [x]) == Rendered(disk, q) + Entry(disk, x)
    decreases q
  {
    if q == [] {
      assert (q + [x])[1..] == [];
    } else {
      RenderedSnoc(disk, q[1..], x);
      assert (q + [x])[1..] == q[1..] + [x];
      assert Entry(disk, q[0]) + (Rendered(disk, q[1..]) + Entry(disk, x))
          == Entry(disk, q[0]) + Rendered(disk, q[1..]) + Entry(disk, x);
    }
  }

  ghost predicate Sized(disk: Disk, q: seq<FileInfo>) {
    && (forall k :: 0 <= k < |q| ==> |q[k].header| < UINT32)
    && (forall f :: f in disk ==> |disk[f]| < INT32)
  }

  // ----- what a flush comes to, in sizes

  /** A header is written through the inner buffer, a file is sent by at least one `sendfile`. */
  datatype Job = HeaderOf(size: nat) | FileOf(size: nat)

  /** The bytes in the inner buffer, and what is to follow them. */
  datatype Backlog = Backlog(inner: nat, jobs: seq<Job>)

  datatype FileFlushing = FileFlushing(left: Backlog, script: seq<int>)

  function EntryJobs(disk: Disk, x: FileInfo): (jobs: seq<Job>) {
    [HeaderOf(|x.header|)] + if x.filename != "" && x.filename in disk then [FileOf(|disk[x.filename]|)] else []
  }

  function QueueJobs(disk: Disk, q: seq<FileInfo>): (jobs: seq<Job>)
    ensures jobs == [] <==> q == []
  {
    if q == [] then [] else EntryJobs(disk, q[0]) + QueueJobs(disk, q[1..])
  }

  lemma {:induction false} QueueJobsSnoc(disk: Disk, q: seq<FileInfo>, x: FileInfo)
    ensures QueueJobs(disk, q + [x]) == QueueJobs(disk, q) + EntryJobs(disk, x)
    decreases q
  {
    if q == [] {
      assert (q + [x])[1..] == [];
    } else {
      QueueJobsSnoc(disk, q[1..], x);
      assert (q + [x])[1..] == q[1..] + [x];
      Regroup(EntryJobs(disk, q[0]), QueueJobs(disk, q[1..]), EntryJobs(disk, x));
    }
  }

  /** Working through the backlog while the kernel takes it: it stops when all is taken or at a refusal. */
  function FlushedFiles(b: Backlog, script: seq<int>): (r: FileFlushing)
    decreases |script|, |b.jobs|
  {
    var f := Flushed(b.inner, script);
    if f.left > 0 || b.jobs == [] then FileFlushing(Backlog(f.left, b.jobs), f.script) else
    match b.jobs[0]
    case HeaderOf(n) => FlushedFiles(Backlog(n, b.jobs[1..]), f.script)
    case FileOf(n) =>
      var ret := Socket<char>.Answer(f.script, n);
      var rest := Socket<char>.Next(f.script);
      if ret < 0 then FileFlushing(Backlog(0, b.jobs), rest)
      else FlushedFiles(Backlog(0, AfterSendfile(b.jobs, ret)), rest)
  }

  function AfterSendfile(jobs: seq<Job>, n: nat): seq<Job>
    requires jobs != [] && n <= jobs[0].size
  {
    (if n == jobs[0].size then [] else [FileOf(jobs[0].size - n)]) + jobs[1..]
  }

  lemma InnerFlushed(b: Backlog, script: seq<int>)
    ensures var f := Flushed(b.inner, script);
            FlushedFiles(b, script) == if f.left > 0 then FileFlushing(Backlog(f.left, b.jobs), f.script)
                                       else FlushedFiles(Backlog(0, b.jobs), f.script)
  {
  }

  lemma HeaderMoved(jobs: seq<Job>, n: nat, script: seq<int>)
    ensures FlushedFiles(Backlog(0, [HeaderOf(n)] + jobs), script) == FlushedFiles(Backlog(n, jobs), script)
  {
    assert ([HeaderOf(n)] + jobs)[1..] == jobs;
  }

  lemma FileSent(jobs: seq<Job>, script: seq<int>)
    requires jobs != [] && jobs[0].FileOf?
    ensures var ret, rest := Socket<char>.Answer(script, jobs[0].size), Socket<char>.Next(script);
            FlushedFiles(Backlog(0, jobs), script) == if ret < 0 then FileFlushing(Backlog(0, jobs), rest)
                                                      else FlushedFiles(Backlog(0, AfterSendfile(jobs, ret)), rest)
  {
  }

  /** A flush gives up at a refusal and nowhere else. */
  lemma {:induction false} FlushedFilesStops(b: Backlog, script: seq<int>)
    ensures var r := FlushedFiles(b, script); StopsAtRefusal(script, r.script, r.left == Backlog(0, []))
    decreases |script|, |b.jobs|
  {
    var f := Flushed(b.inner, script);
    var all := FlushedFiles(b, script);
    var drained := all.left == Backlog(0, []);
    FlushedStops(b.inner, script);
    if f.left == 0 && b.jobs != [] {
      match b.jobs[0] {
        case HeaderOf(n) =>
          FlushedFilesStops(Backlog(n, b.jobs[1..]), f.script);
        case FileOf(n) =>
          UsesNone(f.script);
          if Socket<char>.Answer(f.script, n) >= 0 {
            var ret := Socket<char>.Answer(f.script, n);
            FlushedFilesStops(Backlog(0, AfterSendfile(b.jobs, ret)), f.script[1..]);
            UsesOneMore(f.script, all.script, drained);
          }
      }
      UsesThenMore(script, f.script, all.script, drained);
    }
  }

  lemma UsesThenMore(script: seq<int>, mid: seq<int>, rest: seq<int>, drained: bool)
    requires StopsAtRefusal(script, mid, true) && StopsAtRefusal(mid, rest, drained)
    ensures StopsAtRefusal(script, rest, drained)
  {
    var j :| 0 <= j <= |script| && Uses(script, mid, true, j);
    var k :| 0 <= k <= |mid| && Uses(mid, rest, drained, k);
    UsesConcat(script, rest, drained, j, k);
  }

  lemma UsesConcat(script: seq<int>, rest: seq<int>, drained: bool, j: nat, k: nat)
    requires j <= |script| && k <= |script[j..]|
    requires Uses(script, script[j..], true, j) && Uses(script[j..], rest, drained, k)
    ensures Uses(script, rest, drained, j + k)
  {
    forall i | 0 <= i < j + k ensures script[i] >= 0 {
      if i >= j { assert script[j..][i - j] == script[i]; }
    }
    assert script[j..][k..] == script[j + k..];
    if k < |script[j..]| { assert script[j..][k + 1..] == script[j + k + 1..]; }
  }

  /** Answers that take everything there is to write. */
  function Generous(n: nat): seq<int> {
    if n == 0 then [] else [n] + Generous(n - Min(WRITE_BUFFER_SIZE, n))
  }

  function GenerousFor(b: Backlog): seq<int>
    decreases |b.jobs|
  {
    Generous(b.inner) +
    if b.jobs == [] then [] else
    match b.jobs[0]
    case HeaderOf(n) => GenerousFor(Backlog(n, b.jobs[1..]))
    case FileOf(n) => [n] + GenerousFor(Backlog(0, b.jobs[1..]))
  }

  lemma {:induction false} GenerousDrains(n: nat, more: seq<int>)
    ensures Flushed(n, Generous(n) + more) == Flushing(0, more)
  {
    var script := Generous(n) + more;
    if n == 0 {
      assert script == more;
    } else {
      var k := Min(WRITE_BUFFER_SIZE, n);
      assert script[1..] == Generous(n - k) + more;
      GenerousDrains(n - k, more);
    }
  }

  lemma FileTaken(jobs: seq<Job>, n: nat, later: seq<int>)
    ensures FlushedFiles(Backlog(0, [FileOf(n)] + jobs), [n] + later) == FlushedFiles(Backlog(0, jobs), later)
  {
    assert ([n] + later)[1..] == later && ([FileOf(n)] + jobs)[1..] == jobs && [] + jobs == jobs;
  }

  /** No backlog is beyond every kernel. */
  lemma {:induction false} Drainable(b: Backlog)
    ensures FlushedFiles(b, GenerousFor(b)).left == Backlog(0, [])
    decreases |b.jobs|
  {
    if b.jobs == [] {
      GenerousDrains(b.inner, []);
    } else {
      var n, jobs := b.jobs[0].size, b.jobs[1..];
      assert b.jobs == [b.jobs[0]] + jobs;
      match b.jobs[0] {
        case HeaderOf(_) =>
          GenerousDrains(b.inner, GenerousFor(Backlog(n, jobs)));
          Drainable(Backlog(n, jobs));
        case FileOf(_) =>
          var later := GenerousFor(Backlog(0, jobs));
          GenerousDrains(b.inner, [n] + later);
          FileTaken(jobs, n, later);
          Drainable(Backlog(0, jobs));
      }
    }
  }

  /** The last thing to be sent is a text, which passes through the inner buffer. */
  predicate EndsInText(b: Backlog) {
    if b.jobs == [] then b.inner > 0 else b.jobs[|b.jobs| - 1].HeaderOf? && b.jobs[|b.jobs| - 1].size > 0
  }

  /** The queue is empty although bytes are left. */
  predicate OnlyInner(b: Backlog) {
    b.jobs == [] && b.inner > 0
  }

  ghost predicate Starves(b: Backlog, script: seq<int>) {
    OnlyInner(FlushedFiles(b, script).left)
  }

  /** Answers that take everything but the last text. */
  function Starving(b: Backlog): seq<int>
    decreases |b.jobs|
  {
    if b.jobs == [] then [] else
    Generous(b.inner) +
    match b.jobs[0]
    case HeaderOf(n) => Starving(Backlog(n, b.jobs[1..]))
    case FileOf(n) => [n] + Starving(Backlog(0, b.jobs[1..]))
  }

  lemma {:induction false} Starved(b: Backlog)
    requires EndsInText(b)
    ensures Starves(b, Starving(b))
    decreases |b.jobs|
  {
    if b.jobs != [] {
      var n, jobs := b.jobs[0].size, b.jobs[1..];
      assert b.jobs == [b.jobs[0]] + jobs;
      match b.jobs[0] {
        case HeaderOf(_) =>
          GenerousDrains(b.inner, Starving(Backlog(n, jobs)));
          Starved(Backlog(n, jobs));
        case FileOf(_) =>
          var later := Starving(Backlog(0, jobs));
          GenerousDrains(b.inner, [n] + later);
          FileTaken(jobs, n, later);
          Starved(Backlog(0, jobs));
      }
    }
  }

  lemma {:induction false} OnlyTextStarves(b: Backlog, script: seq<int>)
    requires Starves(b, script)
    ensures EndsInText(b)
    decreases |script|, |b.jobs|
  {
    var f := Flushed(b.inner, script);
    if f.left == 0 && b.jobs != [] {
      match b.jobs[0] {
        case HeaderOf(n) => OnlyTextStarves(Backlog(n, b.jobs[1..]), f.script);
        case FileOf(n) =>
          var ret := Socket<char>.Answer(f.script, n);
          OnlyTextStarves(Backlog(0, AfterSendfile(b.jobs, ret)), Socket<char>.Next(f.script));
      }
    }
  }

  /** Some kernel leaves the queue empty and bytes behind exactly if the last thing to be sent is a text. */
  lemma CanStarveIff(b: Backlog)
    ensures (exists script :: Starves(b, script)) <==> EndsInText(b)
  {
    if EndsInText(b) { Starved(b); }
    forall script | Starves(b, script) ensures EndsInText(b) { OnlyTextStarves(b, script); }
  }

  function TotalSize(jobs: seq<Job>): nat {
    if jobs == [] then 0 else jobs[0].size + TotalSize(jobs[1..])
  }

  lemma {:induction false} TotalSizeConcat(a: seq<Job>, b: seq<Job>)
    ensures TotalSize(a + b) == TotalSize(a) + TotalSize(b)
    decreases a
  {
    if a == [] {
      assert a + b == b;
    } else {
      assert (a + b)[1..] == a[1..] + b;
      TotalSizeConcat(a[1..], b);
    }
  }

  lemma EntrySize(disk: Disk, x: FileInfo)
    ensures TotalSize(EntryJobs(disk, x)) == |Entry(disk, x)|
  {
    var header := HeaderOf(|x.header|);
    if x.filename != "" && x.filename in disk {
      var file := FileOf(|disk[x.filename]|);
      assert EntryJobs(disk, x) == [header, file] && [header, file][1..] == [file] && [file][1..] == [];
      assert TotalSize([file]) == |disk[x.filename]|;
    } else {
      assert EntryJobs(disk, x) == [header] && [header][1..] == [];
    }
  }

  lemma {:induction false} QueueSize(disk: Disk, q: seq<FileInfo>)
    ensures TotalSize(QueueJobs(disk, q)) == |Rendered(disk, q)|
    decreases q
  {
    if q != [] {
      EntrySize(disk, q[0]);
      QueueSize(disk, q[1..]);
      TotalSizeConcat(EntryJobs(disk, q[0]), QueueJobs(disk, q[1..]));
    }
  }

  class FileBuffer {
    const disk: Disk
    const buffer: Buffer<char>
    var pendingFiles: seq<FileInfo>
    var fd: int  // 0 when no file is open
    var bytesSent: nat
    var bytesPending: nat

    ghost predicate Valid()
      reads this, buffer
    {
      && buffer.Valid() && Sized(disk, pendingFiles)
      && (fd != 0 ==> |pendingFiles| > 0 && pendingFiles[0].filename in disk && pendingFiles[0].filename != "")
      && (fd != 0 ==> bytesSent + bytesPending == |disk[pendingFiles[0].filename]|)
    }

    /** What of the queue is not yet in the inner buffer: the rest of the open file, then the other entries. */
    ghost function Waiting(): string
      reads this, buffer
      requires Valid()
    {
      if fd == 0 then Rendered(disk, pendingFiles)
      else disk[pendingFiles[0].filename][bytesSent..] + Rendered(disk, pendingFiles[1..])
    }

    /** Everything accepted and not yet taken by the kernel. */
    ghost function Unsent(): string
      reads this, buffer
      requires Valid()
    {
      buffer.Contents() + Waiting()
    }

    ghost predicate Drained()
      reads this, buffer
      requires Valid()
    {
      buffer.Contents() == [] && pendingFiles == []
    }

    ghost function Jobs(): (jobs: seq<Job>)
      reads this, buffer
      requires Valid()
      ensures jobs == [] <==> pendingFiles == []
    {
      if fd == 0 then QueueJobs(disk, pendingFiles) else [FileOf(bytesPending)] + QueueJobs(disk, pendingFiles[1..])
    }

    ghost function Pending(): (b: Backlog)
      reads this, buffer
      requires Valid()
      ensures b == Backlog(0, []) <==> Drained()
    {
      Backlog(|buffer.Contents()|, Jobs())
    }

    /** The backlog counts exactly the bytes that are not sent. */
    lemma PendingIsUnsent()
      requires Valid()
      ensures Pending().inner + TotalSize(Pending().jobs) == |Unsent()|
    {
      if fd == 0 {
        QueueSize(disk, pendingFiles);
      } else {
        QueueSize(disk, pendingFiles[1..]);
        TotalSizeConcat([FileOf(bytesPending)], QueueJobs(disk, pendingFiles[1..]));
        assert [FileOf(bytesPending)][1..] == [];
      }
    }

    constructor (disk: Disk)
      requires forall f :: f in disk ==> |disk[f]| < INT32
      ensures Valid() && fresh(buffer) && Unsent() == "" && Drained() && this.disk == disk
    {
      this.disk := disk;
      buffer := new Buffer<char>();
      pendingFiles, fd, bytesSent, bytesPending := [], 0, 0, 0;
    }

    method AddFile(header: string, filename: string)
      requires Valid() && |header| < UINT32
      modifies this
      ensures Valid() && Jobs() == old(Jobs()) + EntryJobs(disk, FileInfo(header, filename))
      ensures Unsent() == old(Unsent()) + Entry(disk, FileInfo(header, filename))
      ensures filename != "" && filename in disk ==> Unsent() == old(Unsent()) + (header + disk[filename])
      ensures filename == "" || filename !in disk ==> Unsent() == old(Unsent()) + header
    {
      EntryIs(disk, header, filename);
      var x := FileInfo(header, filename);
      Regroup(buffer.Contents(), Waiting(), Entry(disk, x));
      Enqueue(x);
    }

    /** The push onto the queue, whether or not the front entry's file is open. */
    method Enqueue(x: FileInfo)
      requires Valid() && |x.header| < UINT32
      modifies `pendingFiles
      ensures Valid() && Waiting() == old(Waiting()) + Entry(disk, x)
      ensures Jobs() == old(Jobs()) + EntryJobs(disk, x)
    {
      if fd == 0 {
        RenderedSnoc(disk, pendingFiles, x);
        QueueJobsSnoc(disk, pendingFiles, x);
      } else {
        var later := pendingFiles[1..];
        assert (pendingFiles + [x])[1..] == later + [x];
        RenderedSnoc(disk, later, x);
        Regroup(disk[pendingFiles[0].filename][bytesSent..], Rendered(disk, later), Entry(disk, x));
        QueueJobsSnoc(disk, later, x);
        Regroup([FileOf(bytesPending)], QueueJobs(disk, later), EntryJobs(disk, x));
      }
      pendingFiles := pendingFiles + [x];
    }

    method Write(content: string)
      requires Valid() && |content| < UINT32
      modifies this
      ensures Valid() && Unsent() == old(Unsent()) + content
      ensures Jobs() == old(Jobs()) + [HeaderOf(|content|)]
    {
      AddFile(content, "");
    }

    /** It looks only at the queue, not at the inner buffer. */
    predicate Empty()
      reads this, buffer
      requires Valid()
      ensures Drained() <==> Empty() && buffer.Contents() == []
    {
      pendingFiles == []
    }

    /** Moves the front entry's header into the inner buffer and opens its file, if it can be opened. */
    method StartEntry()
      requires Valid() && fd == 0 && pendingFiles != [] && buffer.Contents() == []
      modifies this, buffer
      ensures Valid() && Unsent() == old(Unsent())
      ensures old(Jobs()) == [HeaderOf(|buffer.Contents()|)] + Jobs()
      ensures |pendingFiles| + (if fd == 0 then 1 else 0) == |old(pendingFiles)|
    {
      EmptyFirst(Waiting());
      WriteHeader(pendingFiles[0].header);
      OpenFront();
    }

    method WriteHeader(header: string)
      requires Valid() && |header| < UINT32 && buffer.Contents() == []
      modifies buffer
      ensures Valid() && buffer.Contents() == header && Waiting() == old(Waiting()) && Jobs() == old(Jobs())
    {
      EmptyFirst(header);
      buffer.Write(header);
    }

    /** Opens the front entry's file, or drops the entry if there is none that can be opened. */
    method OpenFront()
      requires Valid() && fd == 0 && pendingFiles != []
      modifies this
      ensures Valid() && old(Waiting()) == old(pendingFiles[0].header) + Waiting()
      ensures old(Jobs()) == [HeaderOf(|old(pendingFiles[0].header)|)] + Jobs()
      ensures |pendingFiles| + (if fd == 0 then 1 else 0) == |old(pendingFiles)|
    {
      var x := pendingFiles[0];
      FrontEntry(disk, pendingFiles);
      FrontJobs(disk, pendingFiles);
      if x.filename != "" && x.filename in disk {
        fd := 3;
        bytesPending := |disk[x.filename]|;
        bytesSent := 0;
      } else {
        pendingFiles := pendingFiles[1..];
      }
    }

    /** Books `n` bytes of the open file; it is closed and its entry dropped once nothing is pending. */
    method Advance(n: nat, ghost part: string)
      requires Valid() && fd != 0 && n <= bytesPending
      requires part == disk[pendingFiles[0].filename][bytesSent..bytesSent + n]
      modifies this
      ensures Valid() && Jobs() == AfterSendfile(old(Jobs()), n)
      ensures old(Waiting()) == part + Waiting()
      ensures |pendingFiles| + (if fd == 0 then 1 else 0) == |old(pendingFiles)|
    {
      RestOfFile(disk[pendingFiles[0].filename], bytesSent, n, Rendered(disk, pendingFiles[1..]));
      bytesSent := bytesSent + n;
      bytesPending := bytesPending - n;
      if bytesPending == 0 {
        fd := 0;
        pendingFiles := pendingFiles[1..];
      }
    }

    /** One `sendfile`. */
    method SendSome(sock: Socket<char>) returns (ret: int)
      requires Valid() && fd != 0
      modifies this, sock`script, sock`wire
      ensures Valid() && sock.wire + Waiting() == old(sock.wire) + old(Waiting())
      ensures sock.Answered(old(sock.script), old(bytesPending), ret)
      ensures Jobs() == if ret < 0 then old(Jobs()) else AfterSendfile(old(Jobs()), ret)
    {
      var file := disk[pendingFiles[0].filename];
      ghost var wire, waiting := sock.wire, Waiting();
      ret := sock.Sendfile(file, bytesSent, bytesPending);
      ghost var part := if ret < 0 then [] else file[bytesSent..bytesSent + ret];
      ghost var sent := sock.wire;
      if ret >= 0 { Advance(ret, part); }
      Conserved(wire, waiting, part, sent, Waiting());
    }

    method FlushInner(sock: Socket<char>) returns (ret: int)
      requires Valid()
      modifies buffer, sock`script, sock`wire
      ensures Valid() && sock.wire + Unsent() == old(sock.wire) + old(Unsent())
      ensures Flushing(|buffer.Contents()|, sock.script) == Flushed(|old(buffer.Contents())|, old(sock.script))
      ensures Jobs() == old(Jobs()) && ret == if buffer.Contents() == [] then 0 else -1
    {
      ret := buffer.WriteBufferToFd(sock);
      Regrouped(sock.wire, buffer.Contents(), old(sock.wire), old(buffer.Contents()), Waiting());
    }

    /** The front entry is started unless its file is open already, and the inner buffer is flushed. */
    method FlushFront(sock: Socket<char>) returns (ret: int)
      requires Valid() && pendingFiles != [] && buffer.Contents() == []
      modifies this, buffer, sock`script, sock`wire
      ensures Valid() && sock.wire + Unsent() == old(sock.wire) + old(Unsent())
      ensures ret == if buffer.Contents() == [] then 0 else -1
      ensures FlushedFiles(old(Pending()), old(sock.script))
           == if ret < 0 then FileFlushing(Pending(), sock.script) else FlushedFiles(Pending(), sock.script)
      ensures |sock.script| <= |old(sock.script)|
      ensures |pendingFiles| + (if fd == 0 then 1 else 0) == |old(pendingFiles)|
    {
      if fd == 0 {
        StartEntry();
        HeaderMoved(Jobs(), |buffer.Contents()|, sock.script);
      }
      InnerFlushed(Pending(), sock.script);
      ret := FlushInner(sock);
    }

    /** One `sendfile` if a file is open. */
    method SendFront(sock: Socket<char>) returns (ret: int)
      requires Valid() && buffer.Contents() == []
      modifies this, sock`script, sock`wire
      ensures Valid() && sock.wire + Unsent() == old(sock.wire) + old(Unsent())
      ensures -1 <= ret && (ret < 0 ==> !Drained())
      ensures FlushedFiles(old(Pending()), old(sock.script))
           == if ret < 0 then FileFlushing(Pending(), sock.script) else FlushedFiles(Pending(), sock.script)
      ensures old(fd) == 0 ==> sock.script == old(sock.script) && pendingFiles == old(pendingFiles)
      ensures old(fd) != 0 && ret >= 0 ==> |sock.script| < |old(sock.script)|
    {
      if fd == 0 { return 0; }
      FileSent(Jobs(), sock.script);
      assert Unsent() == Waiting();
      ret := SendSome(sock);
      assert Unsent() == Waiting();
    }

    /** One round of the flush loop. */
    method FlushEntry(sock: Socket<char>) returns (ret: int)
      requires Valid() && pendingFiles != [] && buffer.Contents() == []
      modifies this, buffer, sock`script, sock`wire
      ensures Valid() && sock.wire + Unsent() == old(sock.wire) + old(Unsent())
      ensures FlushedFiles(old(Pending()), old(sock.script))
           == if ret < 0 then FileFlushing(Pending(), sock.script) else FlushedFiles(Pending(), sock.script)
      ensures -1 <= ret && (ret < 0 ==> !Drained()) && (ret >= 0 ==> buffer.Contents() == [])
      ensures ret >= 0 ==> |sock.script| < |old(sock.script)| ||
                           (|sock.script| == |old(sock.script)| && |pendingFiles| < |old(pendingFiles)|)
    {
      ret := FlushFront(sock);
      if ret < 0 { return; }
      ret := SendFront(sock);
    }

    method WriteBufferToFd(sock: Socket<char>) returns (ret: int)
      requires Valid()
      modifies this, buffer, sock`script, sock`wire
      ensures Valid() && sock.wire + Unsent() == old(sock.wire) + old(Unsent())
      ensures FileFlushing(Pending(), sock.script) == FlushedFiles(old(Pending()), old(sock.script))
      ensures ret == if Drained() then 0 else -1
    {
      ghost var all := FlushedFiles(Pending(), sock.script);
      InnerFlushed(Pending(), sock.script);
      ret := FlushInner(sock);
      if ret < 0 { return; }
      while pendingFiles != []
        invariant Valid() && buffer.Contents() == []
        invariant sock.wire + Unsent() == old(sock.wire) + old(Unsent())
        invariant all == FlushedFiles(Pending(), sock.script)
        decreases |sock.script|, |pendingFiles|
      {
        ret := FlushEntry(sock);
        if ret < 0 { return; }
      }
      ret := 0;
    }
  }

  // ----- whole runs

  datatype Action = Add(header: string, filename: string) | Put(content: string) | Flush

  function Queued(disk: Disk, a: Action): string {
    match a
    case Add(header, filename) => Entry(disk, FileInfo(header, filename))
    case Put(content) => content
    case Flush => []
  }

  function AllQueued(disk: Disk, actions: seq<Action>): string {
    if actions == [] then [] else Queued(disk, actions[0]) + AllQueued(disk, actions[1..])
  }

  ghost predicate Small(a: Action) {
    match a case Add(header, _) => |header| < UINT32 case Put(content) => |content| < UINT32 case Flush => true
  }

  method Act(f: FileBuffer, sock: Socket<char>, a: Action)
    requires f.Valid() && Small(a)
    modifies f, f.buffer, sock`script, sock`wire
    ensures f.Valid() && sock.wire + f.Unsent() == old(sock.wire) + old(f.Unsent()) + Queued(f.disk, a)
    ensures a.Flush? && f.Drained() ==> sock.wire == old(sock.wire) + old(f.Unsent())
  {
    match a {
      case Add(header, filename) => f.AddFile(header, filename); Regroup(sock.wire, old(f.Unsent()), Queued(f.disk, a));
      case Put(content) => f.Write(content); Regroup(sock.wire, old(f.Unsent()), content);
      case Flush => var ret := f.WriteBufferToFd(sock);
    }
  }

  /** Every interleaving of queueing and flushing: what is on the wire, then what is unsent, is what was queued. */
  method RunActions(f: FileBuffer, sock: Socket<char>, actions: seq<Action>)
    requires f.Valid() && forall k :: 0 <= k < |actions| ==> Small(actions[k])
    modifies f, f.buffer, sock`script, sock`wire
    ensures f.Valid() && sock.wire + f.Unsent() == old(sock.wire) + old(f.Unsent()) + AllQueued(f.disk, actions)
    decreases |actions|
  {
    if actions == [] { return; }
    Act(f, sock, actions[0]);
    RunActions(f, sock, actions[1..]);
    Regroup(old(sock.wire) + old(f.Unsent()), Queued(f.disk, actions[0]), AllQueued(f.disk, actions[1..]));
  }

  lemma Regrouped(w: string, c: string, w0: string, c0: string, rest: string)
    requires w + c == w0 + c0
    ensures w + (c + rest) == w0 + (c0 + rest)
  {
    assert w + (c + rest) == (w + c) + rest;
    assert w0 + (c0 + rest) == (w0 + c0) + rest;
  }

  lemma EmptyFirst(s: string)
    ensures [] + s == s
  {
  }

  lemma RestOfFile(file: string, from: nat, n: nat, later: string)
    requires from + n <= |file|
    ensures file[from..] + later == file[from..from + n] + (file[from + n..] + later)
    ensures from + n == |file| ==> file[from..] + later == file[from..from + n] + later
  {
  }

  lemma FrontEntry(disk: Disk, q: seq<FileInfo>)
    requires q != []
    ensures var x, later := q[0], Rendered(disk, q[1..]);
            && (x.filename != "" && x.filename in disk ==>
                  Rendered(disk, q) == x.header + (disk[x.filename][0..] + later))
            && (x.filename == "" || x.filename !in disk ==> Rendered(disk, q) == x.header + later)
  {
    var x, later := q[0], Rendered(disk, q[1..]);
    if x.filename != "" && x.filename in disk {
      assert disk[x.filename][0..] == disk[x.filename];
      Regroup(x.header, disk[x.filename], later);
    } else {
      assert Entry(disk, x) == x.header;
    }
  }

  lemma FrontJobs(disk: Disk, q: seq<FileInfo>)
    requires q != []
    ensures var x, later := q[0], QueueJobs(disk, q[1..]);
            && (x.filename != "" && x.filename in disk ==>
                  QueueJobs(disk, q) == [HeaderOf(|x.header|)] + ([FileOf(|disk[x.filename]|)] + later))
            && (x.filename == "" || x.filename !in disk ==> QueueJobs(disk, q) == [HeaderOf(|x.header|)] + later)
  {
    var x, later := q[0], QueueJobs(disk, q[1..]);
    if x.filename != "" && x.filename in disk {
      Regroup([HeaderOf(|x.header|)], [FileOf(|disk[x.filename]|)], later);
    } else {
      assert EntryJobs(disk, x) == [HeaderOf(|x.header|)];
    }
  }
}
