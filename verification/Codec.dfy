/**
  The codec over a buffer, with CRC-32 for the checksum, and the frame that the
  protobuf codec puts inside a packet: type name length, type name, message.
 */
module Codecs {

  import opened Basics
  import opened Words
  import opened Checksums
  import opened Buffers
  import opened Framing

  /** The stream one call of `OnMessage` can read without undefined behaviour. */
  ghost predicate Readable(sum: Checksum, s: Bytes)
    decreases |s|
  {
    match Attempted(sum, s)
    case Malformed => false
    case Delivered(_, rest) => Readable(sum, rest)
    case _ => true
  }

  lemma HeaderAndBody(s: Bytes, length: nat)
    requires HEADER_LENGTH <= length <= |s|
    ensures s[..length][4..8] == s[4..8] && s[..length][8..] == s[8..length]
  {
  }

  /** `ntohl` of a word copied out of `b`; `little` is the byte order of the host. */
  method NetworkWord(b: Bytes, little: bool) returns (n: Word)
    requires |b| == 4
    ensures n == FromBigEndian(b)
  {
    n := Swap(Load(b, little), little);
    WireOrder(0, b, little);
  }

  /** The bytes of `htonl(n)` as they lie in memory. */
  method WordBytes(n: Word, little: bool) returns (b: Bytes)
    ensures b == BigEndian(n)
  {
    b := Store(Swap(n, little), little);
    WireOrder(n, [0, 0, 0, 0], little);
  }

  /** The first half: is there a whole packet, and how long is it? */
  method WholePacket(buffer: Buffer<Octet>, little: bool) returns (whole: bool, length: nat)
    requires buffer.Valid()
    ensures var s := buffer.Contents();
            whole <==> HEADER_LENGTH <= |s| && FromBigEndian(s[..4]) <= |s|
    ensures whole ==> length == FromBigEndian(buffer.Contents()[..4])
  {
    whole, length := false, 0;
    var readable := buffer.ReadableBytes();
    if readable < HEADER_LENGTH { return; }
    var _, word := buffer.Peek(4);
    length := NetworkWord(word, little);
    whole := length <= readable;
  }

  method TakeOff(buffer: Buffer<Octet>, length: nat) returns (buf: Bytes)
    requires buffer.Valid() && length <= |buffer.Contents()|
    modifies buffer`readIndex, buffer`writeIndex
    ensures buffer.Valid() && buf == old(buffer.Contents())[..length]
    ensures buffer.Contents() == old(buffer.Contents())[length..] && buffer.writeIndex <= old(buffer.writeIndex)
  {
    var n;
    n, buf := buffer.Peek(length);
    buffer.HaveRead(length);
  }

  method Decapsulate(sum: Checksum, buffer: Buffer<Octet>, little: bool) returns (ok: bool, rawData: Bytes)
    requires buffer.Valid() && !Attempted(sum, buffer.Contents()).Malformed?
    modifies buffer`readIndex, buffer`writeIndex
    ensures buffer.Valid() && (ok <==> Attempted(sum, old(buffer.Contents())).Delivered?)
    ensures buffer.writeIndex <= old(buffer.writeIndex)
    ensures match Attempted(sum, old(buffer.Contents()))
            case Delivered(raw, rest) => rawData == raw && buffer.Contents() == rest
            case Corrupt(rest) => buffer.Contents() == rest
            case _ => buffer.Contents() == old(buffer.Contents())
  {
    ok, rawData := false, [];
    var whole, length := WholePacket(buffer, little);
    if !whole { return; }
    ghost var s := buffer.Contents();
    var buf := TakeOff(buffer, length);
    HeaderAndBody(s, length);
    var checksum := NetworkWord(buf[4..8], little);
    if checksum != sum(buf[8..]) { return; }
    ok, rawData := true, buf[8..];
  }

  method OnMessage(sum: Checksum, buffer: Buffer<Octet>, little: bool) returns (handled: seq<Bytes>)
    requires buffer.Valid() && Readable(sum, buffer.Contents())
    modifies buffer`readIndex, buffer`writeIndex
    ensures buffer.Valid() && Pump(sum, old(buffer.Contents())) == Pumped(handled, buffer.Contents())
    ensures buffer.writeIndex <= old(buffer.writeIndex)
  {
    handled := [];
    ghost var all := Pump(sum, buffer.Contents());
    ghost var todo := all;
    while true
      invariant buffer.Valid() && Readable(sum, buffer.Contents()) && buffer.writeIndex <= old(buffer.writeIndex)
      invariant todo == Pump(sum, buffer.Contents())
      invariant all.out == handled + todo.out && all.rest == todo.rest
      decreases |buffer.Contents()|
    {
      var ok, packet := Decapsulate(sum, buffer, little);
      if !ok { return; }
      todo := Pump(sum, buffer.Contents());
      Regroup(handled, [packet], todo.out);
      handled := handled + [packet];
    }
  }

  method Encapsulated(sum: Checksum, raw: Bytes, little: bool) returns (packet: Bytes)
    ensures packet == Encapsulate(sum, raw) && |packet| == 8 + |raw|
    ensures FromBigEndian(packet[..4]) == (8 + |raw|) % UINT32
    ensures FromBigEndian(packet[4..8]) == sum(raw) && packet[8..] == raw
  {
    PacketLayout(sum, raw);
    var length := WordBytes((HEADER_LENGTH + |raw|) % UINT32, little);
    var checksum := WordBytes(sum(raw), little);
    packet := length + checksum + raw;
  }

  ghost predicate ReadableInChunks(sum: Checksum, chunks: seq<Bytes>, s: Bytes)
    decreases chunks
  {
    chunks == [] ||
    (Readable(sum, s + chunks[0]) && ReadableInChunks(sum, chunks[1..], Pump(sum, s + chunks[0]).rest))
  }

  /** The buffer is written and `OnMessage` called once per chunk. */
  method ReceiveChunks(sum: Checksum, buffer: Buffer<Octet>, little: bool, chunks: seq<Bytes>)
    returns (handled: seq<Bytes>)
    requires buffer.Valid() && buffer.writeIndex + |Concat(chunks)| < UINT32
    requires ReadableInChunks(sum, chunks, buffer.Contents())
    modifies buffer
    ensures buffer.Valid() && Receive(sum, chunks, old(buffer.Contents())) == Pumped(handled, buffer.Contents())
    decreases |chunks|
  {
    if chunks == [] { return []; }
    buffer.Write(chunks[0]);
    var first := OnMessage(sum, buffer, little);
    var later := ReceiveChunks(sum, buffer, little, chunks[1..]);
    handled := first + later;
  }

  // ----- streams of packets over the buffer

  lemma {:induction false} PacketsReadable(sum: Checksum, ms: seq<Bytes>, s: Bytes, later: Bytes)
    requires AllFit(ms) && s + later == Packets(sum, ms)
    ensures Readable(sum, s)
    decreases ms
  {
    if ms != [] {
      var head := Encapsulate(sum, ms[0]);
      var tail := Packets(sum, ms[1..]);
      if |s| < |head| {
        PacketCut(sum, ms[0], tail, s, later);
      } else {
        var s' := s[|head|..];
        CutBehind(s, later, head, tail);
        PacketsReadable(sum, ms[1..], s', later);
        PacketDelivered(sum, ms[0], s');
      }
    }
  }

  /** A stream of packets is readable however it is cut. */
  lemma {:induction false} PacketsReadableInChunks(sum: Checksum, ms: seq<Bytes>, chunks: seq<Bytes>,
                                                   s: Bytes, later: Bytes)
    requires AllFit(ms) && s + Concat(chunks) + later == Packets(sum, ms)
    ensures ReadableInChunks(sum, chunks, s)
    decreases chunks
  {
    if chunks != [] {
      var c, cs := chunks[0], Concat(chunks[1..]);
      var p := Pump(sum, s + c);
      NextChunk(s, chunks, later);
      PacketsReadable(sum, ms, s + c, cs + later);
      PumpPackets(sum, ms, s + c, cs + later);
      StillToCome(sum, ms, s + c, cs + later, p);
      Regroup(p.rest, cs, later);
      PacketsReadableInChunks(sum, ms[|p.out|..], chunks[1..], p.rest, later);
    }
  }

  /**
    Packets arriving in any chunks at an empty buffer: after any number of chunks
    `OnMessage` has handed over exactly the messages that have fully arrived.
   */
  method ReceiveMessages(sum: Checksum, buffer: Buffer<Octet>, little: bool, chunks: seq<Bytes>,
                         ghost ms: seq<Bytes>, ghost later: Bytes)
    returns (handled: seq<Bytes>)
    requires buffer.Valid() && buffer.Contents() == [] && |Concat(chunks)| < UINT32
    requires AllFit(ms) && Concat(chunks) + later == Packets(sum, ms)
    modifies buffer
    ensures buffer.Valid() && Exactly(sum, ms, Concat(chunks), Pumped(handled, buffer.Contents()))
  {
    assert [] + Concat(chunks) == Concat(chunks);
    PacketsReadableInChunks(sum, ms, chunks, [], later);
    Fragmentation(sum, ms, chunks, later);
    handled := ReceiveChunks(sum, buffer, little, chunks);
  }

  lemma WrongChecksumRejected(sum: Checksum, raw: Bytes, altered: Bytes, more: Bytes)
    requires HEADER_LENGTH + |raw| < UINT32 && |altered| == |raw| && sum(altered) != sum(raw)
    ensures Attempted(sum, Encapsulate(sum, raw)[..HEADER_LENGTH] + altered + more) == Corrupt(more)
  {
  }

  /** A packet whose message was altered within 32 adjacent bits is never handed over. */
  lemma AlteredPacketRejected(raw: Bytes, altered: Bytes, i: nat, n: nat, more: Bytes)
    requires HEADER_LENGTH + |raw| < UINT32 && Burst(raw, altered, i, n) && n <= 32 && raw != altered
    ensures Attempted(Crc32, Encapsulate(Crc32, raw)[..HEADER_LENGTH] + altered + more) == Corrupt(more)
  {
    BurstDetected(raw, altered, i, n);
    var sum: Checksum := Crc32;
    assert sum(raw) == Crc32(raw) && sum(altered) == Crc32(altered);
    WrongChecksumRejected(sum, raw, altered, more);
  }

  // ----- the type-name frame

  const MIN_MESSAGE_LENGTH: nat := 4

  /** The message body: the name's length is cut down to 32 bits. */
  function Composed(name: Bytes, payload: Bytes): Bytes {
    BigEndian(|name| % UINT32) + name + payload
  }

  /** The frame: length of the name, name, message. */
  lemma ComposedLayout(name: Bytes, payload: Bytes)
    requires |name| < UINT32
    ensures var buf := Composed(name, payload);
            && |buf| == 4 + |name| + |payload| && FromBigEndian(buf[..4]) == |name|
            && buf[4..4 + |name|] == name && buf[4 + |name|..] == payload
  {
    FitsUint32(|name|);
    WordSurvives(|name|);
    assert Composed(name, payload)[..4] == BigEndian(|name|);
  }

  method ComposeMessage(name: Bytes, payload: Bytes, little: bool) returns (buf: Bytes)
    requires MIN_MESSAGE_LENGTH + |name| + |payload| < UINT32
    ensures buf == Composed(name, payload) && |buf| == 4 + |name| + |payload|
    ensures FromBigEndian(buf[..4]) == |name|
    ensures buf[4..4 + |name|] == name && buf[4 + |name|..] == payload
  {
    ComposedLayout(name, payload);
    FitsUint32(|name|);
    var word := WordBytes(|name|, little);
    buf := WriteThenReadAll(word, name, payload);
  }

  method WriteThenReadAll(a: Bytes, b: Bytes, c: Bytes) returns (buf: Bytes)
    requires |a| + |b| + |c| < UINT32
    ensures buf == a + b + c
  {
    var buffer := new Buffer<Octet>();
    buffer.Write(a);
    assert buffer.Contents() == a;
    buffer.Write(b);
    assert buffer.Contents() == a + b;
    buffer.Write(c);
    buf := buffer.ReadAll();
  }

  datatype Taken =
    | Rejected
    | OutOfRange  // `substr` past the end throws
    | Message(name: Bytes, payload: Bytes)

  /**
    The split of a packet, as far as the name and the bytes of the message.  The
    bound check adds in 32 bits and so wraps for the four largest name lengths.
   */
  function ParseMessage(known: Bytes -> bool, packet: Bytes): Taken {
    if |packet| < MIN_MESSAGE_LENGTH then Rejected else
    var n := FromBigEndian(packet[..4]);
    if |packet| < (n + MIN_MESSAGE_LENGTH) % UINT32 then Rejected else
    var end := if 4 + n > |packet| then |packet| else 4 + n;
    var name := packet[4..end];
    if !known(name) then Rejected
    else if 4 + n > |packet| then OutOfRange
    else Message(name, packet[4 + n..])
  }

  lemma ComposedParses(known: Bytes -> bool, name: Bytes, payload: Bytes)
    requires MIN_MESSAGE_LENGTH + |name| + |payload| < UINT32 && known(name)
    ensures ParseMessage(known, Composed(name, payload)) == Message(name, payload)
  {
    var packet, n := Composed(name, payload), |name|;
    FitsUint32(n);
    WordSurvives(n);
    assert packet[..4] == BigEndian(n) && packet[4..4 + n] == name && packet[4 + n..] == payload;
  }

  lemma ComposedFromParts(word: Bytes, name: Bytes, payload: Bytes)
    requires |word| == 4 && FromBigEndian(word) == |name|
    ensures Composed(name, payload) == word + name + payload
  {
    FitsUint32(|name|);
    BytesSurvive(word);
  }

  lemma ThreeParts(packet: Bytes, n: nat)
    requires 4 + n <= |packet|
    ensures packet == packet[..4] + packet[4..4 + n] + packet[4 + n..]
  {
  }

  lemma ParsedIsComposed(known: Bytes -> bool, packet: Bytes)
    requires ParseMessage(known, packet).Message?
    ensures var m := ParseMessage(known, packet); packet == Composed(m.name, m.payload) && known(m.name)
  {
    var n := FromBigEndian(packet[..4]);
    ThreeParts(packet, n);
    ComposedFromParts(packet[..4], packet[4..4 + n], packet[4 + n..]);
  }

  /** Whatever is accepted is a composed message, and every composed message is accepted. */
  lemma ParseIffComposed(known: Bytes -> bool, packet: Bytes, name: Bytes, payload: Bytes)
    requires |packet| < UINT32
    ensures ParseMessage(known, packet) == Message(name, payload)
       <==> packet == Composed(name, payload) && known(name)
  {
    if packet == Composed(name, payload) && known(name) { ComposedParses(known, name, payload); }
    if ParseMessage(known, packet).Message? { ParsedIsComposed(known, packet); }
  }

  /** The exception is thrown exactly when the sum wraps and the rest of the packet is a known name. */
  lemma ThrowsIff(known: Bytes -> bool, packet: Bytes)
    requires |packet| < UINT32
    ensures ParseMessage(known, packet) == OutOfRange
       <==> |packet| >= 4 && FromBigEndian(packet[..4]) >= UINT32 - 4 && known(packet[4..])
            && |packet| >= FromBigEndian(packet[..4]) + 4 - UINT32
  {
    if |packet| >= 4 && FromBigEndian(packet[..4]) + 4 > |packet| {
      assert packet[4..|packet|] == packet[4..];
    }
  }

  /** The bytes FF FF FF FC in front of a known name make the bound check pass and the split throw. */
  lemma ThrowingPacket(known: Bytes -> bool, name: Bytes)
    requires known(name) && 4 + |name| < UINT32
    ensures ParseMessage(known, [255, 255, 255, 252] + name) == OutOfRange
  {
    var packet := [255, 255, 255, 252] + name;
    assert packet[..4] == [255, 255, 255, 252] && packet[4..] == name;
    ThrowsIff(known, packet);
  }

  // ----- both layers

  datatype Named = Named(name: Bytes, payload: Bytes)

  ghost predicate Sendable(known: Bytes -> bool, x: Named) {
    HEADER_LENGTH + MIN_MESSAGE_LENGTH + |x.name| + |x.payload| < UINT32 && known(x.name)
  }

  /** From one host to another, through both layers and the buffer: the message comes out, what follows it stays. */
  method TwoLayersRoundTrip(sum: Checksum, known: Bytes -> bool, x: Named, sender: bool, receiver: bool,
                            buffer: Buffer<Octet>, more: Bytes)
    returns (taken: Taken)
    requires Sendable(known, x) && buffer.Valid() && buffer.Contents() == []
    requires HEADER_LENGTH + MIN_MESSAGE_LENGTH + |x.name| + |x.payload| + |more| < UINT32
    modifies buffer
    ensures taken == Message(x.name, x.payload)
    ensures buffer.Valid() && buffer.Contents() == more
  {
    var raw := ComposeMessage(x.name, x.payload, sender);
    var packet := Encapsulated(sum, raw, sender);
    buffer.Write(packet + more);
    PacketDelivered(sum, raw, more);
    assert buffer.Contents() == packet + more;
    var ok, rawData := Decapsulate(sum, buffer, receiver);
    taken := Parsed(known, rawData, x);
  }

  function Bodies(xs: seq<Named>): (ms: seq<Bytes>)
    ensures |ms| == |xs| && forall k :: 0 <= k < |xs| ==> ms[k] == Composed(xs[k].name, xs[k].payload)
  {
    if xs == [] then [] else [Composed(xs[0].name, xs[0].payload)] + Bodies(xs[1..])
  }

  /** `ParseAndHandleMessage` for each message, as far as the name and the bytes. */
  method ParseAll(known: Bytes -> bool, handled: seq<Bytes>, ghost xs: seq<Named>) returns (taken: seq<Taken>)
    requires handled <= Bodies(xs) && forall k :: 0 <= k < |xs| ==> Sendable(known, xs[k])
    ensures |taken| == |handled| <= |xs|
    ensures forall k :: 0 <= k < |taken| ==> taken[k] == Message(xs[k].name, xs[k].payload)
  {
    taken := [];
    for i := 0 to |handled|
      invariant |taken| == i
      invariant forall k :: 0 <= k < i ==> taken[k] == Message(xs[k].name, xs[k].payload)
    {
      var x := Parsed(known, handled[i], xs[i]);
      taken := taken + [x];
    }
  }

  method Parsed(known: Bytes -> bool, packet: Bytes, ghost x: Named) returns (taken: Taken)
    requires packet == Composed(x.name, x.payload) && Sendable(known, x)
    ensures taken == Message(x.name, x.payload)
  {
    taken := ParseMessage(known, packet);
    ParseIffComposed(known, packet, x.name, x.payload);
  }

  /** The packets of any messages, cut in any way: exactly those that have fully arrived come out, in order. */
  method ReceiveNamed(sum: Checksum, known: Bytes -> bool, buffer: Buffer<Octet>, little: bool, chunks: seq<Bytes>,
                      ghost xs: seq<Named>, ghost later: Bytes)
    returns (taken: seq<Taken>)
    requires buffer.Valid() && buffer.Contents() == [] && |Concat(chunks)| < UINT32
    requires forall k :: 0 <= k < |xs| ==> Sendable(known, xs[k])
    requires Concat(chunks) + later == Packets(sum, Bodies(xs))
    modifies buffer
    ensures |taken| <= |xs|
    ensures forall k :: 0 <= k < |taken| ==> taken[k] == Message(xs[k].name, xs[k].payload)
    ensures buffer.Valid()
    ensures Exactly(sum, Bodies(xs), Concat(chunks), Pumped(Bodies(xs)[..|taken|], buffer.Contents()))
  {
    var handled := ReceiveMessages(sum, buffer, little, chunks, Bodies(xs), later);
    assert handled == Bodies(xs)[..|handled|];
    taken := ParseAll(known, handled, xs);
  }

  /** Once every byte has arrived nothing is missing and nothing is left. */
  lemma AllArrived(sum: Checksum, ms: seq<Bytes>, r: Pumped)
    requires Exactly(sum, ms, Packets(sum, ms), r)
    ensures r.out == ms && r.rest == []
  {
    assert Packets(sum, ms) + [] == Packets(sum, ms);
    StillToCome(sum, ms, Packets(sum, ms), [], r);
  }
}
