/** What several components share. */
module Basics {

  datatype Option<T> = None | Some(value: T)

  /** One past the largest `uint32_t`. */
  const UINT32 := 0x1_0000_0000

  function Min(a: nat, b: nat): nat { if a < b then a else b }

  lemma FitsUint32(n: nat)
    requires n < UINT32
    ensures n % UINT32 == n
  {
  }

  function Pow2(k: nat): (p: nat)
    ensures p >= 1
  {
    if k == 0 then 1 else 2 * Pow2(k - 1)
  }

  lemma Pow2By8(k: nat)
    ensures Pow2(k + 8) == 256 * Pow2(k)
  {
    assert Pow2(k + 2) == 4 * Pow2(k);
    assert Pow2(k + 4) == 4 * Pow2(k + 2);
    assert Pow2(k + 6) == 4 * Pow2(k + 4);
  }

  function Concat<T>(ss: seq<seq<T>>): seq<T> {
    if ss == [] then [] else ss[0] + Concat(ss[1..])
  }

  lemma Regroup<T>(a: seq<T>, b: seq<T>, c: seq<T>)
    ensures a + (b + c) == a + b + c
  {
  }

  /** What was taken from one side is on the other. */
  lemma Conserved<T>(w0: seq<T>, c0: seq<T>, part: seq<T>, w: seq<T>, c: seq<T>)
    requires w == w0 + part && (c0 == part + c || (part == [] && c0 == c))
    ensures w + c == w0 + c0
  {
    assert part == [] ==> part + c == c;
    Regroup(w0, part, c);
  }

  lemma NextChunk<T>(s: seq<T>, chunks: seq<seq<T>>, later: seq<T>)
    requires chunks != []
    ensures s + Concat(chunks) + later == s + chunks[0] + (Concat(chunks[1..]) + later)
    ensures s + Concat(chunks) == s + chunks[0] + Concat(chunks[1..])
  {
    Regroup(s, chunks[0], Concat(chunks[1..]));
    Regroup(s + chunks[0], Concat(chunks[1..]), later);
  }

  /** A stream that starts with `head`, cut behind it. */
  lemma CutBehind<T>(s: seq<T>, later: seq<T>, head: seq<T>, tail: seq<T>)
    requires s + later == head + tail && |head| <= |s|
    ensures s == head + s[|head|..] && s[|head|..] + later == tail
  {
    assert s[..|head|] == (s + later)[..|head|] == head;
    assert (s + later)[|head|..] == s[|head|..] + later;
  }

  /** The same stream, cut within `head`. */
  lemma CutWithin<T>(s: seq<T>, later: seq<T>, head: seq<T>, tail: seq<T>)
    requires s + later == head + tail && |s| < |head|
    ensures s + head[|s|..] == head
  {
    assert s == (s + later)[..|s|] == (head + tail)[..|s|] == head[..|s|];
  }
}
