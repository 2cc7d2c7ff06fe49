/**
  A socket as an adversarial kernel presents it: every call may be answered in
  full, in part, or not at all.
 */
module Kernel {

  /**
    `script` fixes the kernel's future answers, one per call: a negative number is
    an error such as EAGAIN or EPIPE, any other number is the most it will move.
    Once the script is used up every call would block.
   */
  class Socket<T> {
    var script: seq<int>
    var wire: seq<T>   // what the kernel has accepted for sending
    var inbox: seq<T>  // what has arrived and has not been read

    /** The answer to a call that asks for up to `n` bytes. */
    static function Answer(script: seq<int>, n: nat): (ret: int)
      ensures -1 <= ret <= n
    {
      if script == [] || script[0] < 0 then -1 else if script[0] < n then script[0] else n
    }

    /** The script after one call. */
    static function Next(script: seq<int>): (rest: seq<int>)
      ensures Answer(script, 0) >= 0 ==> |rest| < |script|
    {
      if script == [] then [] else script[1..]
    }

    ghost predicate Answered(old_script: seq<int>, n: nat, ret: int)
      reads this
    {
      ret == Answer(old_script, n) && script == Next(old_script)
    }

    method Reply(n: nat) returns (ret: int)
      modifies this`script
      ensures Answered(old(script), n, ret)
    {
      ret := Answer(script, n);
      script := Next(script);
    }

    /** `write(fd, buf, len)`. */
    method Write(buf: seq<T>) returns (ret: int)
      modifies this`script, this`wire
      ensures Answered(old(script), |buf|, ret)
      ensures wire == old(wire) + if ret < 0 then [] else buf[..ret]
    {
      ret := Reply(|buf|);
      if ret >= 0 { wire := wire + buf[..ret]; }
    }

    /** `sendfile(out_fd, in_fd, &offset, count)` for a file with the given content. */
    method Sendfile(content: seq<T>, offset: nat, count: nat) returns (ret: int)
      requires offset + count <= |content|
      modifies this`script, this`wire
      ensures Answered(old(script), count, ret)
      ensures wire == old(wire) + if ret < 0 then [] else content[offset..offset + ret]
    {
      ret := Reply(count);
      if ret >= 0 { wire := wire + content[offset..offset + ret]; }
    }

    /** `read(fd, buf, n)`; 0 is the end of the stream. */
    method Read(n: nat) returns (ret: int, buf: seq<T>)
      modifies this`script, this`inbox
      ensures Answered(old(script), if n < |old(inbox)| then n else |old(inbox)|, ret)
      ensures |buf| == if ret < 0 then 0 else ret
      ensures buf + inbox == old(inbox)
    {
      ret := Reply(if n < |inbox| then n else |inbox|);
      buf := [];
      if ret >= 0 { buf, inbox := inbox[..ret], inbox[ret..]; }
    }
  }
}

/**
  The byte buffer.  Bytes are inserted at the write index, in front of whatever
  stale bytes an index reset has left behind, so the backing vector only grows.
 */
module Buffers {

  import opened Basics
  import opened Kernel

  const READ_BUFFER_SIZE: nat := 1024
  const WRITE_BUFFER_SIZE: nat := 1024

  datatype Reading = Reading(ret: int, left: nat, script: seq<int>)

  /** Reading while the kernel gives something: it stops at a refusal or at nothing, with `left` bytes unread. */
  function Fetched(n: nat, script: seq<int>): (r: Reading)
    ensures r.left <= n && r.ret <= 0
    decreases |script|
  {
    var ret := Socket<char>.Answer(script, Min(READ_BUFFER_SIZE, n));
    var rest := Socket<char>.Next(script);
    if ret <= 0 then Reading(ret, n, rest) else Fetched(n - ret, rest)
  }

  /** What the kernel has to give before the first answer that gives nothing, 1024 bytes at a time. */
  function Given(script: seq<int>): nat {
    if script == [] || script[0] <= 0 then 0 else Min(1024, script[0]) + Given(script[1..])
  }

  /** The read loop takes all that arrived, or all that the kernel has to give. */
  lemma {:induction false} FetchedTakesGiven(n: nat, script: seq<int>)
    ensures Fetched(n, script).left == n - Min(n, Given(script))
    decreases script
  {
    if n > 0 && script != [] && script[0] > 0 {
      FetchedTakesGiven(n - Min(script[0], Min(READ_BUFFER_SIZE, n)), script[1..]);
    }
  }

  /** The call at `k` is the first that gives nothing: the ones before it gave something. */
  ghost predicate EndsAt(n: nat, script: seq<int>, k: nat)
    decreases k
  {
    if k == 0 then n == 0 || script == [] || script[0] <= 0
    else n > 0 && script != [] && script[0] > 0
         && EndsAt(n - Min(script[0], Min(READ_BUFFER_SIZE, n)), script[1..], k - 1)
  }

  /** The read loop returns what that call does: -1 if it is refused, 0 if it is answered. */
  lemma {:induction false} FetchedResult(n: nat, script: seq<int>) returns (k: nat)
    ensures k <= |script| && EndsAt(n, script, k)
    ensures Fetched(n, script).ret == if k == |script| || script[k] < 0 then -1 else 0
    ensures Fetched(n, script).script == if k == |script| then [] else script[k + 1..]
    decreases script
  {
    if n == 0 || script == [] || script[0] <= 0 { return 0; }
    k := FetchedResult(n - Min(script[0], Min(READ_BUFFER_SIZE, n)), script[1..]);
    k := k + 1;
  }

  datatype Flushing = Flushing(left: nat, script: seq<int>)

  /** Writing `n` bytes while the kernel takes them: it stops when all are taken or at a refusal. */
  function Flushed(n: nat, script: seq<int>): (r: Flushing)
    ensures r.left <= n && |r.script| <= |script|
    decreases |script|
  {
    if n == 0 then Flushing(0, script) else
    var ret := Socket<char>.Answer(script, Min(WRITE_BUFFER_SIZE, n));
    var rest := Socket<char>.Next(script);
    if ret < 0 then Flushing(n, rest) else Flushed(n - ret, rest)
  }

  /** What the kernel takes before it first refuses, at most 1024 bytes at a time. */
  function Capacity(script: seq<int>): nat {
    if Socket<char>.Answer(script, 0) < 0 then 0 else Min(1024, script[0]) + Capacity(script[1..])
  }

  /** A flush drains exactly if the kernel's capacity allows it, and otherwise uses it up. */
  lemma {:induction false} FlushedUsesCapacity(n: nat, script: seq<int>)
    ensures Flushed(n, script).left == n - Min(n, Capacity(script))
    decreases script
  {
    if n > 0 && Socket<char>.Answer(script, 0) >= 0 {
      var ret := Socket<char>.Answer(script, Min(WRITE_BUFFER_SIZE, n));
      FlushedUsesCapacity(n - ret, script[1..]);
    }
  }

  /** The calls that were answered, and whether one was refused after them. */
  ghost predicate StopsAtRefusal(script: seq<int>, rest: seq<int>, drained: bool) {
    exists k :: 0 <= k <= |script| && Uses(script, rest, drained, k)
  }

  /** The first `k` calls are answered; if that did not drain everything, the next one is refused. */
  ghost predicate Uses(script: seq<int>, rest: seq<int>, drained: bool, k: nat)
    requires k <= |script|
  {
    && (forall i :: 0 <= i < k ==> script[i] >= 0)
    && if drained || k == |script| then rest == script[k..] else script[k] < 0 && rest == script[k + 1..]
  }

  lemma UsesOneMore(script: seq<int>, rest: seq<int>, drained: bool)
    requires script != [] && script[0] >= 0 && StopsAtRefusal(script[1..], rest, drained)
    ensures StopsAtRefusal(script, rest, drained)
  {
    var k :| 0 <= k <= |script[1..]| && Uses(script[1..], rest, drained, k);
    assert forall i :: 1 <= i <= k ==> script[i] == script[1..][i - 1];
    assert Uses(script, rest, drained, k + 1);
  }

  lemma UsesNone(script: seq<int>)
    ensures StopsAtRefusal(script, script, true)
    ensures Socket<char>.Answer(script, 0) < 0 ==> StopsAtRefusal(script, Socket<char>.Next(script), false)
  {
    assert Uses(script, script, true, 0);
    if Socket<char>.Answer(script, 0) < 0 { assert Uses(script, Socket<char>.Next(script), false, 0); }
  }

  /** A flush gives up at a refusal and nowhere else. */
  lemma {:induction false} FlushedStops(n: nat, script: seq<int>)
    ensures var r := Flushed(n, script); StopsAtRefusal(script, r.script, r.left == 0)
    decreases script
  {
    UsesNone(script);
    if n > 0 && Socket<char>.Answer(script, 0) >= 0 {
      var ret := Socket<char>.Answer(script, Min(WRITE_BUFFER_SIZE, n));
      FlushedStops(n - ret, script[1..]);
      UsesOneMore(script, Flushed(n, script).script, Flushed(n, script).left == 0);
    }
  }

  lemma PrefixThenRest<T>(s: seq<T>, n: nat, k: nat)
    requires k <= n <= |s|
    ensures s == s[..n][..k] + s[k..]
  {
  }

  class Buffer<T> {
    var readIndex: nat
    var writeIndex: nat
    var data: seq<T>
    ghost var written: nat  // the number of bytes ever written

    ghost predicate Valid()
      reads this
    {
      && readIndex <= writeIndex <= |data| && writeIndex < UINT32
      && (readIndex == writeIndex ==> writeIndex == 0)
      && |data| == written
    }

    /** The abstract value: the bytes written and not yet read. */
    ghost function Contents(): (s: seq<T>)
      reads this
      requires Valid()
    {
      data[readIndex..writeIndex]
    }

    constructor ()
      ensures Valid() && Contents() == [] && written == 0
    {
      readIndex, writeIndex, data, written := 0, 0, [], 0;
    }

    method ReadableBytes() returns (n: nat)
      requires Valid()
      ensures n == |Contents()| < UINT32
    {
      n := writeIndex - readIndex;
    }

    predicate Empty()
      reads this
      requires Valid()
      ensures Empty() <==> Contents() == []
    {
      readIndex == writeIndex
    }

    /** The requested size is cut down to 32 bits before it is compared. */
    method Peek(n: nat) returns (readable: nat, result: seq<T>)
      requires Valid()
      ensures readable == Min(n % UINT32, |Contents()|)
      ensures result == Contents()[..readable]
    {
      readable := Min(n % UINT32, writeIndex - readIndex);
      result := data[readIndex..readIndex + readable];
    }

    method HaveRead(n: nat)
      requires Valid()
      modifies this`readIndex, this`writeIndex
      ensures Valid() && Contents() == old(Contents())[Min(n % UINT32, |old(Contents())|)..]
      ensures writeIndex <= old(writeIndex)
    {
      readIndex := readIndex + Min(n % UINT32, writeIndex - readIndex);
      if writeIndex == readIndex {
        writeIndex, readIndex := 0, 0;
      }
    }

    method Read(n: nat) returns (result: seq<T>)
      requires Valid()
      modifies this`readIndex, this`writeIndex
      ensures Valid() && result + Contents() == old(Contents())
      ensures |result| == Min(n % UINT32, |old(Contents())|) && writeIndex <= old(writeIndex)
    {
      var readable;
      readable, result := Peek(n);
      ghost var before := Contents();
      FitsUint32(readable);
      HaveRead(readable);
      assert before == before[..readable] + before[readable..];
    }

    method ReadAll() returns (result: seq<T>)
      requires Valid()
      modifies this`readIndex, this`writeIndex
      ensures Valid() && Contents() == [] && result == old(Contents())
    {
      result := Read(writeIndex - readIndex);
    }

    method Write(content: seq<T>)
      requires Valid() && writeIndex + |content| < UINT32
      modifies this
      ensures Valid() && Contents() == old(Contents()) + content
      ensures written == old(written) + |content| && writeIndex == old(writeIndex) + |content|
    {
      data := data[..writeIndex] + content + data[writeIndex..];
      writeIndex := writeIndex + |content|;
      written := written + |content|;
    }

    /** One round of the read loop: what the kernel gave joins the buffer. */
    method ReadSome(sock: Socket<T>) returns (ret: int)
      requires Valid() && writeIndex + |sock.inbox| < UINT32
      modifies this, sock`script, sock`inbox
      ensures Valid() && Contents() + sock.inbox == old(Contents()) + old(sock.inbox)
      ensures sock.Answered(old(sock.script), Min(READ_BUFFER_SIZE, |old(sock.inbox)|), ret)
      ensures |sock.inbox| == |old(sock.inbox)| - if ret < 0 then 0 else ret
      ensures writeIndex + |sock.inbox| == old(writeIndex) + |old(sock.inbox)|
    {
      var buf;
      ret, buf := sock.Read(READ_BUFFER_SIZE);
      Regroup(old(Contents()), buf, sock.inbox);
      assert ret < 0 ==> buf == [] && sock.inbox == old(sock.inbox);
      if ret >= 0 { Write(buf); }
    }

    /** Reads until the kernel refuses or has no more: nothing that arrived is lost or reordered. */
    method ReadBufferFromFd(sock: Socket<T>) returns (ret: int)
      requires Valid() && writeIndex + |sock.inbox| < UINT32
      modifies this, sock`script, sock`inbox
      ensures Valid() && Contents() + sock.inbox == old(Contents()) + old(sock.inbox)
      ensures Reading(ret, |sock.inbox|, sock.script) == Fetched(|old(sock.inbox)|, old(sock.script))
    {
      ghost var all := Fetched(|sock.inbox|, sock.script);
      ret := 1;
      while ret > 0
        invariant Valid() && writeIndex + |sock.inbox| < UINT32
        invariant all == if ret > 0 then Fetched(|sock.inbox|, sock.script) else Reading(ret, |sock.inbox|, sock.script)
        invariant Contents() + sock.inbox == old(Contents()) + old(sock.inbox)
        decreases |sock.script|, ret
      {
        ret := ReadSome(sock);
      }
    }

    /** One round of the flush loop: what the kernel took leaves the buffer. */
    method WriteSome(sock: Socket<T>) returns (ret: int)
      requires Valid()
      modifies this`readIndex, this`writeIndex, sock`script, sock`wire
      ensures Valid() && sock.wire + Contents() == old(sock.wire) + old(Contents())
      ensures sock.Answered(old(sock.script), Min(WRITE_BUFFER_SIZE, |old(Contents())|), ret)
      ensures |Contents()| == |old(Contents())| - if ret < 0 then 0 else ret
      ensures writeIndex <= old(writeIndex)
    {
      var n, buf := Peek(WRITE_BUFFER_SIZE);
      ghost var wire, before := sock.wire, Contents();
      ret := sock.Write(buf);
      ghost var part := if ret < 0 then [] else buf[..ret];
      if ret >= 0 {
        FitsUint32(ret);
        HaveRead(ret);
        PrefixThenRest(before, n, ret);
      }
      Conserved(wire, before, part, sock.wire, Contents());
    }

    /** Flushes until drained or refused: what is left, and so what is sent, is what the script decides. */
    method WriteBufferToFd(sock: Socket<T>) returns (ret: int)
      requires Valid()
      modifies this`readIndex, this`writeIndex, sock`script, sock`wire
      ensures Valid() && sock.wire + Contents() == old(sock.wire) + old(Contents())
      ensures Flushing(|Contents()|, sock.script) == Flushed(|old(Contents())|, old(sock.script))
      ensures ret == (if Contents() == [] then 0 else -1) && writeIndex <= old(writeIndex)
    {
      ghost var all := Flushed(|Contents()|, sock.script);
      while writeIndex - readIndex > 0
        invariant Valid() && sock.wire + Contents() == old(sock.wire) + old(Contents())
        invariant all == Flushed(|Contents()|, sock.script) && writeIndex <= old(writeIndex)
        decreases |sock.script|
      {
        ret := WriteSome(sock);
        if ret < 0 { return; }
      }
      ret := 0;
    }
  }

  // ----- every run of the buffer is a run of a queue

  datatype Op<T> = Put(bytes: seq<T>) | Look(n: nat) | Get(n: nat)

  /** What a plain queue yields for the operations, and what it holds afterwards. */
  function QueueRun<T>(q: seq<T>, ops: seq<Op<T>>): (r: (seq<seq<T>>, seq<T>))
    decreases ops
  {
    if ops == [] then ([], q) else
    match ops[0]
    case Put(bytes) => QueueRun(q + bytes, ops[1..])
    case Look(n) => var r := QueueRun(q, ops[1..]); ([q[..Min(n % UINT32, |q|)]] + r.0, r.1)
    case Get(n) =>
      var k := Min(n % UINT32, |q|);
      var r := QueueRun(q[k..], ops[1..]); ([q[..k]] + r.0, r.1)
  }

  function Volume<T>(ops: seq<Op<T>>): nat {
    if ops == [] then 0 else (if ops[0].Put? then |ops[0].bytes| else 0) + Volume(ops[1..])
  }

  method Run<T>(b: Buffer<T>, ops: seq<Op<T>>) returns (outs: seq<seq<T>>)
    requires b.Valid() && b.writeIndex + Volume(ops) < UINT32
    modifies b
    ensures b.Valid() && QueueRun(old(b.Contents()), ops) == (outs, b.Contents())
    ensures b.written == |b.data| == old(b.written) + Volume(ops)
    decreases |ops|
  {
    if ops == [] { return []; }
    match ops[0] {
      case Put(bytes) =>
        b.Write(bytes);
        outs := Run(b, ops[1..]);
      case Look(n) =>
        var _, x := b.Peek(n);
        outs := Run(b, ops[1..]);
        outs := [x] + outs;
      case Get(n) =>
        ghost var q := b.Contents();
        var x := b.Read(n);
        assert x == q[..|x|] && b.Contents() == q[|x|..];
        outs := Run(b, ops[1..]);
        outs := [x] + outs;
    }
  }

  function Puts<T>(ops: seq<Op<T>>): seq<T> {
    if ops == [] then [] else (if ops[0].Put? then ops[0].bytes else []) + Puts(ops[1..])
  }

  lemma GetConserves<T>(q: seq<T>, k: nat, outs: seq<seq<T>>, left: seq<T>, puts: seq<T>)
    requires k <= |q| && Concat(outs) + left == q[k..] + puts
    ensures Concat([q[..k]] + outs) + left == q + puts
  {
    assert ([q[..k]] + outs)[1..] == outs;
    assert q[..k] + Concat(outs) + left == q[..k] + (Concat(outs) + left);
    assert q[..k] + (q[k..] + puts) == q + puts;
  }

  ghost predicate NoLooks<T>(ops: seq<Op<T>>) {
    ops == [] || (!ops[0].Look? && NoLooks(ops[1..]))
  }

  /** First in, first out: what was taken, then what is left, is what was put in. */
  lemma {:induction false} QueueConserves<T>(q: seq<T>, ops: seq<Op<T>>)
    requires NoLooks(ops)
    ensures var r := QueueRun(q, ops); Concat(r.0) + r.1 == q + Puts(ops)
    decreases ops
  {
    if ops == [] {
      assert q + [] == q && [] + q == q;
    } else {
      match ops[0] {
        case Put(bytes) =>
          QueueConserves(q + bytes, ops[1..]);
          Regroup(q, bytes, Puts(ops[1..]));
        case Get(n) =>
          var k := Min(n % UINT32, |q|);
          QueueConserves(q[k..], ops[1..]);
          var r := QueueRun(q[k..], ops[1..]);
          GetConserves(q, k, r.0, r.1, Puts(ops[1..]));
          assert [] + Puts(ops[1..]) == Puts(ops[1..]);
      }
    }
  }
}
