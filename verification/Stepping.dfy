/**
  A reader that takes at most one item off its buffer per read event, over a
  stream of items that is cut into chunks in any way.
 */
module Stepping {

  import opened Basics

  datatype Step<O> = Wait | Take(out: O, rest: string)

  datatype Item<O> = Item(text: string, out: O)

  datatype Progress<O> = Progress(outs: seq<O>, rest: string)

  /** A step takes off the item `x`, whatever is behind it, and waits while it is not whole. */
  ghost predicate Takes<O>(step: string -> Step<O>, x: Item<O>) {
    && x.text != []
    && (forall s, rest :: s == x.text + rest && |s| < UINT32 ==> step(s) == Take(x.out, rest))
    && (forall s, later :: s + later == x.text && later != [] ==> step(s) == Wait)
  }

  ghost predicate TakesAll<O>(step: string -> Step<O>, items: seq<Item<O>>) {
    step("") == Wait && forall k :: 0 <= k < |items| ==> Takes(step, items[k])
  }

  function Stream<O>(items: seq<Item<O>>): string {
    if items == [] then [] else items[0].text + Stream(items[1..])
  }

  /** One step per chunk. */
  function Arriving<O>(step: string -> Step<O>, chunks: seq<string>, s: string): Progress<O>
    decreases chunks
  {
    if chunks == [] then Progress([], s) else
    match step(s + chunks[0])
    case Wait => Arriving(step, chunks[1..], s + chunks[0])
    case Take(out, rest) => var r := Arriving(step, chunks[1..], rest); Progress([out] + r.outs, r.rest)
  }

  /** After every chunk and its step, a further step would wait. */
  ghost predicate Prompt<O>(step: string -> Step<O>, chunks: seq<string>, s: string)
    decreases chunks
  {
    chunks == [] ||
    match step(s + chunks[0])
    case Wait => Prompt(step, chunks[1..], s + chunks[0])
    case Take(_, rest) => step(rest) == Wait && Prompt(step, chunks[1..], rest)
  }

  /** The first item is whole once `n` bytes of the stream have arrived. */
  predicate Whole<O>(items: seq<Item<O>>, n: nat) {
    items != [] && |items[0].text| <= n
  }

  /** With `n` bytes in the buffer, no chunk brings the end of an item while another one is whole. */
  predicate OneAtATime<O>(items: seq<Item<O>>, chunks: seq<string>, n: nat)
    decreases chunks
  {
    chunks == [] ||
    var t := n + |chunks[0]|;
    if !Whole(items, t) then OneAtATime(items, chunks[1..], t)
    else
      var left := t - |items[0].text|;
      !Whole(items[1..], left) && OneAtATime(items[1..], chunks[1..], left)
  }

  /** A step takes off exactly the first item, if it is whole, and otherwise waits. */
  lemma OneStep<O>(step: string -> Step<O>, items: seq<Item<O>>, s: string, later: string)
    requires TakesAll(step, items) && s + later == Stream(items) && |Stream(items)| < UINT32
    ensures if Whole(items, |s|) then
              var rest := s[|items[0].text|..];
              step(s) == Take(items[0].out, rest) && rest + later == Stream(items[1..])
            else step(s) == Wait
  {
    if Whole(items, |s|) {
      CutBehind(s, later, items[0].text, Stream(items[1..]));
      assert Takes(step, items[0]);
    } else if items == [] {
      assert s == "";
    } else {
      CutWithin(s, later, items[0].text, Stream(items[1..]));
      assert Takes(step, items[0]);
    }
  }

  /** `s` is in the buffer, `chunks` and then `later` are to come, and it all makes up the items' stream. */
  ghost predicate Streaming<O>(step: string -> Step<O>, items: seq<Item<O>>, chunks: seq<string>,
                               s: string, later: string)
  {
    TakesAll(step, items) && |Stream(items)| < UINT32 && s + Concat(chunks) + later == Stream(items)
  }

  lemma WaitIff<O>(step: string -> Step<O>, items: seq<Item<O>>, chunks: seq<string>, s: string, later: string)
    requires Streaming(step, items, chunks, s, later)
    ensures step(s) == Wait <==> !Whole(items, |s|)
  {
    Regroup(s, Concat(chunks), later);
    OneStep(step, items, s, Concat(chunks) + later);
  }

  /** What the next chunk brings. */
  lemma ChunkStep<O>(step: string -> Step<O>, items: seq<Item<O>>, chunks: seq<string>, s: string, later: string)
    requires chunks != [] && Streaming(step, items, chunks, s, later)
    ensures var t := s + chunks[0];
            if Whole(items, |t|) then
              var rest := t[|items[0].text|..];
              step(t) == Take(items[0].out, rest) && Streaming(step, items[1..], chunks[1..], rest, later)
            else step(t) == Wait && Streaming(step, items, chunks[1..], t, later)
  {
    var t, cs := s + chunks[0], Concat(chunks[1..]);
    NextChunk(s, chunks, later);
    OneStep(step, items, t, cs + later);
    if Whole(items, |t|) {
      Regroup(t[|items[0].text|..], cs, later);
    } else {
      Regroup(t, cs, later);
    }
  }

  /** The first `|outs|` items have been taken, and `rest` is what has arrived of the others. */
  ghost predicate InOrder<O>(items: seq<Item<O>>, r: Progress<O>, later: string) {
    && |r.outs| <= |items|
    && (forall k :: 0 <= k < |r.outs| ==> r.outs[k] == items[k].out)
    && r.rest + later == Stream(items[|r.outs|..])
  }

  lemma InOrderOneMore<O>(items: seq<Item<O>>, r: Progress<O>, later: string)
    requires items != [] && InOrder(items[1..], r, later)
    ensures InOrder(items, Progress([items[0].out] + r.outs, r.rest), later)
  {
    assert items[1..][|r.outs|..] == items[|r.outs| + 1..];
  }

  /** The number of items taken, in sizes: one per chunk at the most. */
  function Taken<O>(items: seq<Item<O>>, chunks: seq<string>, n: nat): nat
    decreases chunks
  {
    if chunks == [] then 0 else
    var t := n + |chunks[0]|;
    if Whole(items, t) then 1 + Taken(items[1..], chunks[1..], t - |items[0].text|)
    else Taken(items, chunks[1..], t)
  }

  /** However the stream is cut: the items are taken in order, none is lost and none is taken twice. */
  lemma {:induction false} ArrivingInOrder<O>(step: string -> Step<O>, items: seq<Item<O>>, chunks: seq<string>,
                                              s: string, later: string)
    requires Streaming(step, items, chunks, s, later)
    ensures InOrder(items, Arriving(step, chunks, s), later)
    decreases chunks
  {
    if chunks == [] {
      assert s + Concat(chunks) == s && items[0..] == items;
    } else {
      var t := s + chunks[0];
      ChunkStep(step, items, chunks, s, later);
      if Whole(items, |t|) {
        var rest := t[|items[0].text|..];
        ArrivingInOrder(step, items[1..], chunks[1..], rest, later);
        InOrderOneMore(items, Arriving(step, chunks[1..], rest), later);
      } else {
        ArrivingInOrder(step, items, chunks[1..], t, later);
      }
    }
  }

  lemma OutsStep<O>(step: string -> Step<O>, chunks: seq<string>, s: string)
    requires chunks != []
    ensures var t, later := s + chunks[0], chunks[1..];
            |Arriving(step, chunks, s).outs| ==
              if step(t).Wait? then |Arriving(step, later, t).outs| else 1 + |Arriving(step, later, step(t).rest).outs|
  {
  }

  lemma {:induction false} ArrivingCount<O>(step: string -> Step<O>, items: seq<Item<O>>, chunks: seq<string>,
                                            s: string, later: string)
    requires Streaming(step, items, chunks, s, later)
    ensures |Arriving(step, chunks, s).outs| == Taken(items, chunks, |s|)
    decreases chunks
  {
    if chunks != [] {
      var t := s + chunks[0];
      ChunkStep(step, items, chunks, s, later);
      OutsStep(step, chunks, s);
      if Whole(items, |t|) {
        var rest := t[|items[0].text|..];
        ArrivingCount(step, items[1..], chunks[1..], rest, later);
      } else {
        ArrivingCount(step, items, chunks[1..], t, later);
      }
    }
  }

  /** No whole item is kept waiting exactly if no chunk completes a second one. */
  lemma {:induction false} PromptIff<O>(step: string -> Step<O>, items: seq<Item<O>>, chunks: seq<string>,
                                        s: string, later: string)
    requires Streaming(step, items, chunks, s, later)
    ensures Prompt(step, chunks, s) <==> OneAtATime(items, chunks, |s|)
    decreases chunks
  {
    if chunks != [] {
      var t := s + chunks[0];
      ChunkStep(step, items, chunks, s, later);
      if Whole(items, |t|) {
        var rest := t[|items[0].text|..];
        WaitIff(step, items[1..], chunks[1..], rest, later);
        PromptIff(step, items[1..], chunks[1..], rest, later);
      } else {
        PromptIff(step, items, chunks[1..], t, later);
      }
    }
  }

  // ----- how many have been taken

  /** The number of items that are whole in the first `n` bytes. */
  function WholeIn<O>(items: seq<Item<O>>, n: nat): nat
    decreases items
  {
    if !Whole(items, n) then 0 else 1 + WholeIn(items[1..], n - |items[0].text|)
  }

  function FirstBytes(chunks: seq<string>, j: nat): nat
    requires j <= |chunks|
    decreases chunks
  {
    if j == 0 then 0 else |chunks[0]| + FirstBytes(chunks[1..], j - 1)
  }

  /** No more than are whole after the first `j` chunks and one for each chunk that follows. */
  function Bound<O>(items: seq<Item<O>>, chunks: seq<string>, n: nat, j: nat): nat
    requires j <= |chunks|
  {
    if j == 0 then |chunks| else WholeIn(items, n + FirstBytes(chunks, j)) + |chunks| - j
  }

  /** `k` is the least of the bounds. */
  ghost predicate LeastBound<O>(items: seq<Item<O>>, chunks: seq<string>, n: nat, k: nat) {
    && (forall j :: 0 <= j <= |chunks| ==> k <= Bound(items, chunks, n, j))
    && (exists j :: 0 <= j <= |chunks| && k == Bound(items, chunks, n, j))
  }

  /** `k` items have been taken: the least of the bounds, and all that are whole if no chunk completes two. */
  ghost predicate Counted<O>(items: seq<Item<O>>, chunks: seq<string>, n: nat, k: nat) {
    && LeastBound(items, chunks, n, k)
    && (OneAtATime(items, chunks, n) ==> k == WholeIn(items, n + |Concat(chunks)|))
  }

  lemma BoundTaken<O>(items: seq<Item<O>>, chunks: seq<string>, n: nat, j: nat)
    requires j < |chunks| && Whole(items, n + |chunks[0]|)
    ensures var b := 1 + Bound(items[1..], chunks[1..], n + |chunks[0]| - |items[0].text|, j);
            if j == 0 then b == Bound(items, chunks, n, 0) <= Bound(items, chunks, n, 1)
            else b == Bound(items, chunks, n, j + 1)
  {
  }

  lemma BoundWaiting<O>(items: seq<Item<O>>, chunks: seq<string>, n: nat, j: nat)
    requires j < |chunks| && !Whole(items, n + |chunks[0]|)
    ensures Bound(items, chunks[1..], n + |chunks[0]|, j) == Bound(items, chunks, n, j + 1)
  {
  }

  lemma LeastBoundTaken<O>(items: seq<Item<O>>, chunks: seq<string>, n: nat, k: nat)
    requires chunks != [] && Whole(items, n + |chunks[0]|)
    requires LeastBound(items[1..], chunks[1..], n + |chunks[0]| - |items[0].text|, k)
    ensures LeastBound(items, chunks, n, k + 1)
  {
    var n' := n + |chunks[0]| - |items[0].text|;
    var i :| 0 <= i <= |chunks[1..]| && k == Bound(items[1..], chunks[1..], n', i);
    BoundTaken(items, chunks, n, i);
    assert k + 1 == Bound(items, chunks, n, if i == 0 then 0 else i + 1);
    forall j | 0 <= j <= |chunks| ensures k + 1 <= Bound(items, chunks, n, j) {
      BoundTaken(items, chunks, n, if j == 0 then 0 else j - 1);
      assert k <= Bound(items[1..], chunks[1..], n', if j == 0 then 0 else j - 1);
    }
  }

  lemma LeastBoundWaiting<O>(items: seq<Item<O>>, chunks: seq<string>, n: nat, k: nat)
    requires chunks != [] && !Whole(items, n + |chunks[0]|)
    requires LeastBound(items, chunks[1..], n + |chunks[0]|, k)
    ensures LeastBound(items, chunks, n, k)
  {
    var n' := n + |chunks[0]|;
    var i :| 0 <= i <= |chunks[1..]| && k == Bound(items, chunks[1..], n', i);
    BoundWaiting(items, chunks, n, i);
    assert k == Bound(items, chunks, n, i + 1);
    assert k <= Bound(items, chunks[1..], n', 0);
    forall j | 1 <= j <= |chunks| ensures k <= Bound(items, chunks, n, j) {
      BoundWaiting(items, chunks, n, j - 1);
      assert k <= Bound(items, chunks[1..], n', j - 1);
    }
  }

  /** As many items are taken as there are whole ones and chunks for: the least of the bounds. */
  lemma {:induction false} TakenCount<O>(items: seq<Item<O>>, chunks: seq<string>, n: nat)
    ensures LeastBound(items, chunks, n, Taken(items, chunks, n))
    decreases chunks
  {
    if chunks == [] {
      assert Bound(items, chunks, n, 0) == 0;
    } else {
      var t := n + |chunks[0]|;
      if Whole(items, t) {
        TakenCount(items[1..], chunks[1..], t - |items[0].text|);
        LeastBoundTaken(items, chunks, n, Taken(items[1..], chunks[1..], t - |items[0].text|));
      } else {
        TakenCount(items, chunks[1..], t);
        LeastBoundWaiting(items, chunks, n, Taken(items, chunks[1..], t));
      }
    }
  }

  /** If no chunk completes a second item, every whole one has been taken. */
  lemma {:induction false} AllWholeTaken<O>(items: seq<Item<O>>, chunks: seq<string>, n: nat)
    requires !Whole(items, n) && OneAtATime(items, chunks, n)
    ensures Taken(items, chunks, n) == WholeIn(items, n + |Concat(chunks)|)
    decreases chunks
  {
    if chunks != [] {
      var t := n + |chunks[0]|;
      if Whole(items, t) {
        AllWholeTaken(items[1..], chunks[1..], t - |items[0].text|);
      } else {
        AllWholeTaken(items, chunks[1..], t);
      }
    }
  }

  lemma NothingWhole<O>(step: string -> Step<O>, items: seq<Item<O>>)
    requires TakesAll(step, items)
    ensures !Whole(items, 0)
  {
    assert items != [] ==> Takes(step, items[0]);
  }

  lemma TakenCounted<O>(items: seq<Item<O>>, chunks: seq<string>, n: nat)
    requires !Whole(items, n)
    ensures Counted(items, chunks, n, Taken(items, chunks, n))
  {
    TakenCount(items, chunks, n);
    if OneAtATime(items, chunks, n) { AllWholeTaken(items, chunks, n); }
  }

  /** How many items of a stream have been taken, however it is cut. */
  lemma ArrivingCounted<O>(step: string -> Step<O>, items: seq<Item<O>>, chunks: seq<string>, s: string, later: string)
    requires Streaming(step, items, chunks, s, later) && !Whole(items, |s|)
    ensures Counted(items, chunks, |s|, |Arriving(step, chunks, s).outs|)
  {
    ArrivingCount(step, items, chunks, s, later);
    TakenCounted(items, chunks, |s|);
  }
}
