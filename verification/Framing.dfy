/**
  The length-and-checksum framing of a byte stream.  The checksum is a parameter:
  nothing here depends on which one it is.
 */
module Framing {

  import opened Basics
  import opened Words

  const HEADER_LENGTH: nat := 8

  type Checksum = Bytes -> Word

  /** The packet for a message; its length field is cut down to 32 bits. */
  function Encapsulate(sum: Checksum, raw: Bytes): (p: Bytes)
    ensures |p| == HEADER_LENGTH + |raw|
  {
    BigEndian((HEADER_LENGTH + |raw|) % UINT32) + BigEndian(sum(raw)) + raw
  }

  /** The wire format: length of the whole packet, checksum of the message, message. */
  lemma PacketLayout(sum: Checksum, raw: Bytes)
    ensures var p := Encapsulate(sum, raw);
            && FromBigEndian(p[..4]) == (8 + |raw|) % UINT32 && FromBigEndian(p[4..8]) == sum(raw) && p[8..] == raw
  {
    var p := Encapsulate(sum, raw);
    var length, check := BigEndian((8 + |raw|) % UINT32), BigEndian(sum(raw));
    assert p[..4] == length && p[4..8] == check && p[8..] == raw;
    WordSurvives((8 + |raw|) % UINT32);
    WordSurvives(sum(raw));
  }

  /** What one attempt to take a packet off the stream comes to. */
  datatype Attempt =
    | Incomplete
    | Malformed  // a declared length below the header's own: undefined behaviour
    | Corrupt(rest: Bytes)
    | Delivered(raw: Bytes, rest: Bytes)

  function Attempted(sum: Checksum, s: Bytes): (a: Attempt)
    ensures a.Corrupt? || a.Delivered? ==> |a.rest| < |s|
  {
    if |s| < HEADER_LENGTH then Incomplete else
    var length := FromBigEndian(s[..4]);
    if |s| < length then Incomplete
    else if length < HEADER_LENGTH then Malformed
    else if FromBigEndian(s[4..8]) == sum(s[8..length]) then Delivered(s[8..length], s[length..])
    else Corrupt(s[length..])
  }

  datatype Pumped = Pumped(out: seq<Bytes>, rest: Bytes)

  /** One call of `OnMessage`: packets are handed over until one fails. */
  function Pump(sum: Checksum, s: Bytes): (r: Pumped)
    decreases |s|
  {
    match Attempted(sum, s)
    case Delivered(raw, rest) => var r := Pump(sum, rest); Pumped([raw] + r.out, r.rest)
    case Corrupt(rest) => Pumped([], rest)
    case _ => Pumped([], s)
  }

  // ----- arriving in pieces

  lemma LongerStart(s: Bytes, more: Bytes, length: nat)
    requires HEADER_LENGTH <= |s| && HEADER_LENGTH <= length <= |s|
    ensures (s + more)[8..length] == s[8..length] && (s + more)[length..] == s[length..] + more
  {
  }

  /** More bytes do not change what has been decided. */
  lemma AttemptStable(sum: Checksum, s: Bytes, more: Bytes)
    ensures var a := Attempted(sum, s);
            && (a.Malformed? ==> Attempted(sum, s + more).Malformed?)
            && (a.Corrupt? ==> Attempted(sum, s + more) == Corrupt(a.rest + more))
            && (a.Delivered? ==> Attempted(sum, s + more) == Delivered(a.raw, a.rest + more))
  {
    if HEADER_LENGTH <= |s| {
      assert (s + more)[..4] == s[..4] && (s + more)[4..8] == s[4..8];
      var length := FromBigEndian(s[..4]);
      if HEADER_LENGTH <= length <= |s| { LongerStart(s, more, length); }
    }
  }

  /** The payloads of all sound packets of a stream, corrupt ones left out. */
  function Sound(sum: Checksum, s: Bytes): (ms: seq<Bytes>)
    decreases |s|
  {
    match Attempted(sum, s)
    case Delivered(raw, rest) => [raw] + Sound(sum, rest)
    case Corrupt(rest) => Sound(sum, rest)
    case _ => []
  }

  /** What a call hands over and what it leaves make up the stream, whatever follows. */
  lemma {:induction false} PumpSplitsStream(sum: Checksum, s: Bytes, more: Bytes)
    ensures Sound(sum, s + more) == Pump(sum, s).out + Sound(sum, Pump(sum, s).rest + more)
    decreases |s|
  {
    AttemptStable(sum, s, more);
    match Attempted(sum, s) {
      case Delivered(raw, rest) => PumpSplitsStream(sum, rest, more);
      case _ =>
    }
  }

  /** `OnMessage` after each chunk: what has been handed over, and what the buffer holds. */
  function Receive(sum: Checksum, chunks: seq<Bytes>, s: Bytes): (r: Pumped)
    decreases chunks
  {
    if chunks == [] then Pumped([], s) else
    var p := Pump(sum, s + chunks[0]);
    var r := Receive(sum, chunks[1..], p.rest);
    Pumped(p.out + r.out, r.rest)
  }

  /**
    For every stream, sound or not, and every way it is cut into chunks: the sound
    packets are handed over in order, none twice and none skipped, except those
    that are still in the buffer.
   */
  lemma {:induction false} ReceiveSplitsStream(sum: Checksum, chunks: seq<Bytes>, s: Bytes)
    ensures var r := Receive(sum, chunks, s); Sound(sum, s + Concat(chunks)) == r.out + Sound(sum, r.rest)
    decreases chunks
  {
    if chunks == [] {
      assert s + Concat(chunks) == s;
    } else {
      var later := Concat(chunks[1..]);
      var p := Pump(sum, s + chunks[0]);
      var r := Receive(sum, chunks[1..], p.rest);
      Regroup(s, chunks[0], later);
      PumpSplitsStream(sum, s + chunks[0], later);
      ReceiveSplitsStream(sum, chunks[1..], p.rest);
      Regroup(p.out, r.out, Sound(sum, r.rest));
    }
  }

  // ----- streams of whole messages

  function Packets(sum: Checksum, ms: seq<Bytes>): Bytes {
    if ms == [] then [] else Encapsulate(sum, ms[0]) + Packets(sum, ms[1..])
  }

  /** Every packet's length fits its 32-bit field. */
  ghost predicate AllFit(ms: seq<Bytes>) {
    forall k :: 0 <= k < |ms| ==> HEADER_LENGTH + |ms[k]| < UINT32
  }

  lemma PacketDelivered(sum: Checksum, raw: Bytes, more: Bytes)
    requires HEADER_LENGTH + |raw| < UINT32
    ensures Attempted(sum, Encapsulate(sum, raw) + more) == Delivered(raw, more)
  {
  }

  lemma LengthWord(sum: Checksum, raw: Bytes, more: Bytes)
    requires HEADER_LENGTH + |raw| < UINT32
    ensures (Encapsulate(sum, raw) + more)[..4] == BigEndian(HEADER_LENGTH + |raw|)
  {
    FitsUint32(HEADER_LENGTH + |raw|);
  }

  lemma PacketCut(sum: Checksum, raw: Bytes, more: Bytes, s: Bytes, later: Bytes)
    requires HEADER_LENGTH + |raw| < UINT32 && |s| < HEADER_LENGTH + |raw|
    requires s + later == Encapsulate(sum, raw) + more
    ensures Attempted(sum, s) == Incomplete
  {
    if HEADER_LENGTH <= |s| {
      var length := HEADER_LENGTH + |raw|;
      assert s[..4] == (s + later)[..4];
      LengthWord(sum, raw, more);
      WordSurvives(length);
    }
  }

  /**
    Of the messages `ms`, exactly those in `out` have fully arrived with the bytes
    `arrived`, and `rest` is what has arrived of the next one.
   */
  ghost predicate Exactly(sum: Checksum, ms: seq<Bytes>, arrived: Bytes, r: Pumped) {
    && r.out <= ms
    && arrived == Packets(sum, r.out) + r.rest
    && if |r.out| == |ms| then r.rest == [] else |r.rest| < HEADER_LENGTH + |ms[|r.out|]|
  }

  lemma ExactlyOneMore(sum: Checksum, ms: seq<Bytes>, s: Bytes, r: Pumped)
    requires ms != [] && Exactly(sum, ms[1..], s, r)
    ensures Exactly(sum, ms, Encapsulate(sum, ms[0]) + s, Pumped([ms[0]] + r.out, r.rest))
  {
  }

  /** One call hands over exactly the messages that have arrived and keeps the rest. */
  lemma {:induction false} PumpPackets(sum: Checksum, ms: seq<Bytes>, s: Bytes, later: Bytes)
    requires AllFit(ms) && s + later == Packets(sum, ms)
    ensures Exactly(sum, ms, s, Pump(sum, s))
    decreases ms
  {
    if ms != [] {
      var head := Encapsulate(sum, ms[0]);
      var tail := Packets(sum, ms[1..]);
      if |s| < |head| {
        PacketCut(sum, ms[0], tail, s, later);
      } else {
        var s' := s[|head|..];
        CutBehind(s, later, head, tail);
        PumpPackets(sum, ms[1..], s', later);
        PacketDelivered(sum, ms[0], s');
        ExactlyOneMore(sum, ms, s', Pump(sum, s'));
      }
    }
  }

  lemma {:induction false} PacketsConcat(sum: Checksum, a: seq<Bytes>, b: seq<Bytes>)
    ensures Packets(sum, a + b) == Packets(sum, a) + Packets(sum, b)
    decreases a
  {
    if a == [] {
      assert a + b == b;
    } else {
      PacketsConcat(sum, a[1..], b);
      assert (a + b)[1..] == a[1..] + b;
      Regroup(Encapsulate(sum, a[0]), Packets(sum, a[1..]), Packets(sum, b));
    }
  }

  lemma ExactlyThen(sum: Checksum, ms: seq<Bytes>, s: Bytes, c: Bytes, p: Pumped, r: Pumped)
    requires Exactly(sum, ms, s, p) && Exactly(sum, ms[|p.out|..], p.rest + c, r)
    ensures Exactly(sum, ms, s + c, Pumped(p.out + r.out, r.rest))
  {
    PacketsConcat(sum, p.out, r.out);
    Regroup(Packets(sum, p.out), p.rest, c);
    Regroup(Packets(sum, p.out), Packets(sum, r.out), r.rest);
  }

  lemma StillToCome(sum: Checksum, ms: seq<Bytes>, s: Bytes, later: Bytes, p: Pumped)
    requires Exactly(sum, ms, s, p) && s + later == Packets(sum, ms)
    ensures p.rest + later == Packets(sum, ms[|p.out|..])
  {
    assert ms == p.out + ms[|p.out|..];
    PacketsConcat(sum, p.out, ms[|p.out|..]);
    Regroup(Packets(sum, p.out), p.rest, later);
    assert (s + later)[|Packets(sum, p.out)|..] == p.rest + later;
  }

  /**
    Fragmentation: however the packets of `ms` are cut into chunks, after any
    number of chunks exactly the messages that have fully arrived were handed over.
   */
  lemma {:induction false} ReceivePackets(sum: Checksum, ms: seq<Bytes>, chunks: seq<Bytes>, s: Bytes, later: Bytes)
    requires AllFit(ms) && s + Concat(chunks) + later == Packets(sum, ms)
    requires Exactly(sum, ms, s, Pumped([], s))
    ensures Exactly(sum, ms, s + Concat(chunks), Receive(sum, chunks, s))
    decreases chunks
  {
    if chunks == [] {
      assert s + Concat(chunks) == s;
    } else {
      var c, cs := chunks[0], Concat(chunks[1..]);
      var p := Pump(sum, s + c);
      NextChunk(s, chunks, later);
      PumpPackets(sum, ms, s + c, cs + later);
      StillToCome(sum, ms, s + c, cs + later, p);
      Regroup(p.rest, cs, later);
      var todo := ms[|p.out|..];
      ReceivePackets(sum, todo, chunks[1..], p.rest, later);
      ExactlyThen(sum, ms, s + c, cs, p, Receive(sum, chunks[1..], p.rest));
    }
  }

  lemma Fragmentation(sum: Checksum, ms: seq<Bytes>, chunks: seq<Bytes>, later: Bytes)
    requires AllFit(ms) && Concat(chunks) + later == Packets(sum, ms)
    ensures Exactly(sum, ms, Concat(chunks), Receive(sum, chunks, []))
  {
    assert [] + Concat(chunks) == Concat(chunks);
    ReceivePackets(sum, ms, chunks, [], later);
  }

  // ----- corrupt packets

  /** No sound packet comes behind the stream's first corrupt one. */
  ghost predicate Quiet(sum: Checksum, s: Bytes)
    decreases |s|
  {
    match Attempted(sum, s)
    case Delivered(_, rest) => Quiet(sum, rest)
    case Corrupt(rest) => Sound(sum, rest) == []
    case _ => true
  }

  /** In one chunk, everything is handed over exactly if the stream is quiet. */
  lemma {:induction false} PumpAllIff(sum: Checksum, s: Bytes)
    ensures Pump(sum, s).out == Sound(sum, s) <==> Quiet(sum, s)
    decreases |s|
  {
    match Attempted(sum, s) {
      case Delivered(raw, rest) =>
        PumpAllIff(sum, rest);
        assert ([raw] + Pump(sum, rest).out)[1..] == Pump(sum, rest).out;
        assert ([raw] + Sound(sum, rest))[1..] == Sound(sum, rest);
      case _ =>
    }
  }

  /** More bytes take no sound packet away. */
  lemma {:induction false} SoundGrows(sum: Checksum, s: Bytes, more: Bytes)
    ensures |Sound(sum, s)| <= |Sound(sum, s + more)|
    decreases |s|
  {
    AttemptStable(sum, s, more);
    match Attempted(sum, s) {
      case Delivered(_, rest) => SoundGrows(sum, rest, more);
      case Corrupt(rest) => SoundGrows(sum, rest, more);
      case _ =>
    }
  }

  lemma SilentIsQuiet(sum: Checksum, s: Bytes)
    requires Sound(sum, s) == []
    ensures Quiet(sum, s)
  {
  }

  lemma {:induction false} PumpQuiet(sum: Checksum, s: Bytes, more: Bytes)
    requires Quiet(sum, s + more)
    ensures Quiet(sum, Pump(sum, s).rest + more) && Sound(sum, Pump(sum, s).rest) == []
    decreases |s|
  {
    AttemptStable(sum, s, more);
    match Attempted(sum, s) {
      case Delivered(_, rest) => PumpQuiet(sum, rest, more);
      case Corrupt(rest) =>
        SoundGrows(sum, rest, more);
        SilentIsQuiet(sum, rest + more);
      case _ =>
    }
  }

  lemma {:induction false} ReceiveQuiet(sum: Checksum, chunks: seq<Bytes>, s: Bytes)
    requires Quiet(sum, s + Concat(chunks)) && Sound(sum, s) == []
    ensures Receive(sum, chunks, s).out == Sound(sum, s + Concat(chunks))
    ensures Sound(sum, Receive(sum, chunks, s).rest) == []
    decreases chunks
  {
    ReceiveSplitsStream(sum, chunks, s);
    if chunks != [] {
      NextChunk(s, chunks, []);
      PumpQuiet(sum, s + chunks[0], Concat(chunks[1..]));
      ReceiveQuiet(sum, chunks[1..], Pump(sum, s + chunks[0]).rest);
    }
  }

  /** All sound packets of the stream `s` are handed over when it arrives in these chunks. */
  ghost predicate HandsOverAll(sum: Checksum, chunks: seq<Bytes>, s: Bytes) {
    Concat(chunks) == s ==> Receive(sum, chunks, []).out == Sound(sum, s)
  }

  /** However it is cut, a stream is handed over in full exactly if it is quiet. */
  lemma AnyCutIff(sum: Checksum, s: Bytes)
    ensures (forall chunks :: HandsOverAll(sum, chunks, s)) <==> Quiet(sum, s)
  {
    if Quiet(sum, s) {
      forall chunks ensures HandsOverAll(sum, chunks, s) {
        if Concat(chunks) == s {
          assert [] + s == s;
          ReceiveQuiet(sum, chunks, []);
        }
      }
    } else {
      ReceiveOne(sum, s);
      PumpAllIff(sum, s);
      assert Concat([s]) == s by { assert [s][1..] == []; }
      assert !HandsOverAll(sum, [s], s);
    }
  }

  /** No packet of the stream has a wrong checksum. */
  ghost predicate Clean(sum: Checksum, s: Bytes)
    decreases |s|
  {
    match Attempted(sum, s)
    case Delivered(_, rest) => Clean(sum, rest)
    case Corrupt(_) => false
    case _ => true
  }

  lemma {:induction false} CleanIsQuiet(sum: Checksum, s: Bytes)
    requires Clean(sum, s)
    ensures Quiet(sum, s)
    decreases |s|
  {
    match Attempted(sum, s) {
      case Delivered(_, rest) => CleanIsQuiet(sum, rest);
      case _ =>
    }
  }

  /** A clean stream is handed over in full, however it is cut. */
  lemma ReceiveClean(sum: Checksum, chunks: seq<Bytes>)
    requires Clean(sum, Concat(chunks))
    ensures Receive(sum, chunks, []).out == Sound(sum, Concat(chunks))
  {
    CleanIsQuiet(sum, Concat(chunks));
    AnyCutIff(sum, Concat(chunks));
    assert HandsOverAll(sum, chunks, Concat(chunks));
  }

  lemma CorruptThenWhole(sum: Checksum, bad: Bytes, good: Bytes)
    requires Attempted(sum, bad) == Corrupt([])
    ensures Pump(sum, bad + good) == Pumped([], good)
  {
    AttemptStable(sum, bad, good);
    assert [] + good == good;
  }

  lemma ReceiveOne(sum: Checksum, c: Bytes)
    ensures Receive(sum, [c], []) == Pump(sum, c)
  {
    assert [] + c == c && [c][1..] == [];
    var p := Pump(sum, c);
    assert p.out + [] == p.out;
  }

  lemma ReceiveTwo(sum: Checksum, c: Bytes, d: Bytes)
    requires Pump(sum, c) == Pumped([], [])
    ensures Receive(sum, [c, d], []) == Pump(sum, d)
  {
    assert [] + c == c && [c, d][1..] == [d];
    ReceiveOne(sum, d);
    assert [] + Pump(sum, d).out == Pump(sum, d).out;
  }

  /** After a corrupt packet the call stops, so there the cut does matter. */
  lemma CorruptPacketStalls(sum: Checksum, bad: Bytes, m: Bytes)
    requires Attempted(sum, bad) == Corrupt([]) && HEADER_LENGTH + |m| < UINT32
    ensures Receive(sum, [bad + Encapsulate(sum, m)], []) == Pumped([], Encapsulate(sum, m))
    ensures Receive(sum, [bad, Encapsulate(sum, m)], []) == Pumped([m], [])
  {
    var good := Encapsulate(sum, m);
    ReceiveOne(sum, bad + good);
    CorruptThenWhole(sum, bad, good);
    CorruptThenWhole(sum, bad, []);
    assert bad + [] == bad && good + [] == good;
    ReceiveTwo(sum, bad, good);
    PacketDelivered(sum, m, []);
  }
}
