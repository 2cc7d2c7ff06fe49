/**
  Retrying a connection: a delay of 16 bits that doubles, and the timer it is
  handed to.
 */
module Backoff {

  import opened Basics

  const UINT16 := 0x1_0000
  const MIN_INITIAL: nat := 5

  /** The delay, in milliseconds, after `k` doublings in 16 bits. */
  function Delay(base: nat, k: nat): (d: nat)
    ensures d < UINT16
  {
    base * Pow2(k) % UINT16
  }

  function Base(initial: nat): nat {
    if initial < MIN_INITIAL then MIN_INITIAL else initial
  }

  function Delays(base: nat, n: nat): (ds: seq<nat>)
    ensures |ds| == n
  {
    if n == 0 then [] else Delays(base, n - 1) + [Delay(base, n - 1)]
  }

  /** The one-shot time that `SetInterval` programs, from microseconds. */
  datatype TimerSpec = TimerSpec(seconds: nat, nanoseconds: nat)

  function SetInterval(interval: nat): (t: TimerSpec)
    ensures t.nanoseconds < 1_000_000_000
    ensures t.seconds * 1_000_000_000 + t.nanoseconds == interval * 1000
  {
    TimerSpec(interval / 1_000_000, interval % 1_000_000 * 1000)
  }

  /** A timer programmed with zero is disarmed: it never fires. */
  predicate Fires(t: TimerSpec) {
    t != TimerSpec(0, 0)
  }

  class Connector {
    const maxRetry: int
    ghost const base: nat
    var retry: nat
    var retryTimeout: nat
    var armed: seq<TimerSpec>  // what the timer was programmed with, call by call
    var failures: nat          // calls of the failure callback

    ghost predicate Valid()
      reads this
    {
      && |armed| == (if retry <= maxRetry then retry else if maxRetry < 0 then 0 else maxRetry)
      && retryTimeout == Delay(base, |armed|)
      && failures == retry - |armed|
      && forall k :: 0 <= k < |armed| ==> armed[k] == SetInterval(Delay(base, k) * 1000)
    }

    constructor (maxRetry: int, initial: nat)
      requires initial < UINT16
      ensures Valid() && retry == 0 && this.maxRetry == maxRetry
      ensures base >= initial && base >= 5 && (base == initial || base == 5)
    {
      this.maxRetry, base := maxRetry, Base(initial);
      retry, armed, failures := 0, [], 0;
      retryTimeout := Base(initial);
    }

    /** Exactly the first `maxRetry` calls program the timer; the others report failure. */
    method Retry()
      requires Valid()
      modifies this
      ensures Valid() && retry == old(retry) + 1
      ensures old(retry) < maxRetry ==> armed == old(armed) + [SetInterval(Delay(base, old(retry)) * 1000)]
      ensures old(retry) >= maxRetry ==> armed == old(armed) && failures == old(failures) + 1
    {
      retry := retry + 1;
      if retry <= maxRetry {
        DelayStep(base, |armed|);
        armed := armed + [SetInterval(retryTimeout * 1000)];
        retryTimeout := retryTimeout * 2 % UINT16;
      } else {
        failures := failures + 1;
      }
    }
  }

  lemma DelayStep(base: nat, k: nat)
    ensures Delay(base, k) * 2 % UINT16 == Delay(base, k + 1)
  {
    assert base * Pow2(k + 1) == 2 * (base * Pow2(k));
    DoubleTruncated(base * Pow2(k));
  }

  lemma DoubleTruncated(x: nat)
    ensures x % UINT16 * 2 % UINT16 == 2 * x % UINT16
  {
    var q, r := x / UINT16, x % UINT16;
    var t := 2 * r % UINT16;
    ModUnique(2 * x, UINT16, 2 * q + 2 * r / UINT16, t);
  }

  // ----- before the delay overflows

  lemma {:induction false} Pow2Monotone(i: nat, j: nat)
    requires i <= j
    ensures Pow2(i) <= Pow2(j)
    decreases j
  {
    if i < j { Pow2Monotone(i, j - 1); }
  }

  lemma NoOverflow(base: nat, n: nat, k: nat)
    requires k < n && base * Pow2(n - 1) < UINT16
    ensures Delay(base, k) == base * Pow2(k)
  {
    Pow2Monotone(k, n - 1);
    assert base * Pow2(k) <= base * Pow2(n - 1);
  }

  function Sum(ds: seq<nat>): nat {
    if ds == [] then 0 else Sum(ds[..|ds| - 1]) + ds[|ds| - 1]
  }

  lemma Distribute(b: nat, p: nat)
    requires p >= 1
    ensures b * (p - 1) + b * p == b * (2 * p - 1)
  {
  }

  lemma {:induction false} SumOfDelays(base: nat, n: nat, last: nat)
    requires n <= last + 1 && base * Pow2(last) < UINT16
    ensures Sum(Delays(base, n)) == base * (Pow2(n) - 1)
  {
    if n > 0 {
      SumOfDelays(base, n - 1, last);
      NoOverflow(base, last + 1, n - 1);
      assert Delays(base, n)[..n - 1] == Delays(base, n - 1);
      Distribute(base, Pow2(n - 1));
    }
  }

  lemma Positive(b: nat, p: nat)
    requires b >= 1 && p >= 1
    ensures b * p > 0
  {
  }

  /** As long as the last delay fits 16 bits, the delays double and add up to `base * (2^n - 1)`. */
  lemma DelaysDouble(base: nat, n: nat)
    requires base >= 1 && n >= 1 && base * Pow2(n - 1) < UINT16
    ensures forall k :: 0 <= k < n ==> Delay(base, k) > 0
    ensures forall k :: 1 <= k < n ==> Delay(base, k) == 2 * Delay(base, k - 1)
    ensures Sum(Delays(base, n)) == base * (Pow2(n) - 1)
  {
    forall k | 0 <= k < n ensures Delay(base, k) > 0 {
      NoOverflow(base, n, k);
      Positive(base, Pow2(k));
    }
    forall k | 1 <= k < n ensures Delay(base, k) == 2 * Delay(base, k - 1) {
      NoOverflow(base, n, k - 1);
      NoOverflow(base, n, k);
      assert Pow2(k) == 2 * Pow2(k - 1);
    }
    SumOfDelays(base, n, n - 1);
  }

  // ----- after it

  lemma DoubleMod(x: nat, y: nat)
    requires y > 0
    ensures 2 * x % (2 * y) == 2 * (x % y)
  {
    var q, r := x / y, x % y;
    assert 2 * x == 2 * y * q + 2 * r;
    ModUnique(2 * x, 2 * y, q, 2 * r);
  }

  lemma AtLeastOne(m: nat, d: int)
    ensures d >= 1 ==> m * d >= m
    ensures d <= -1 ==> m * d + m <= 0
  {
  }

  lemma ModUnique(x: nat, m: nat, q: nat, r: nat)
    requires r < m && x == m * q + r
    ensures x % m == r
  {
    var d, s := x / m, x % m;
    assert x == m * d + s;
    assert m * (q - d) == s - r;
    AtLeastOne(m, q - d);
  }

  lemma {:induction false} MultipleIff(base: nat, k: nat, m: nat)
    requires k <= m
    ensures base * Pow2(k) % Pow2(m) == 0 <==> base % Pow2(m - k) == 0
    decreases k
  {
    if k > 0 {
      DoubleMod(base * Pow2(k - 1), Pow2(m - 1));
      assert base * Pow2(k) == 2 * (base * Pow2(k - 1));
      MultipleIff(base, k - 1, m - 1);
    }
  }

  lemma Pow2At16()
    ensures Pow2(16) == UINT16
  {
    Pow2By8(0);
    Pow2By8(8);
  }

  /**
    The timer of the retry with index `k` never fires exactly if the base is a
    multiple of 2^(16 - k); from the seventeenth retry on it never does.
   */
  lemma DisarmedIff(base: nat, k: nat)
    ensures !Fires(SetInterval(Delay(base, k) * 1000)) <==> k >= 16 || base % Pow2(16 - k) == 0
  {
    Pow2At16();
    var d := Delay(base, k);
    assert Fires(SetInterval(d * 1000)) <==> d != 0;
    if k <= 16 {
      MultipleIff(base, k, 16);
    } else {
      StaysZero(base, k);
    }
    assert Pow2(0) == 1;
  }

  /** With a base of 32768 ms the second retry's timer never fires. */
  lemma DisarmedExample()
    ensures !Fires(SetInterval(Delay(0x8000, 1) * 1000))
  {
    var k := 1;
    assert Pow2(16) == 2 * Pow2(15);
    Pow2At16();
    DisarmedIff(0x8000, k);
  }

  lemma {:induction false} StaysZero(base: nat, k: nat)
    requires k >= 16
    ensures Delay(base, k) == 0
  {
    if k == 16 {
      Pow2At16();
      MultipleIff(base, 16, 16);
    } else {
      StaysZero(base, k - 1);
      DelayStep(base, k - 1);
    }
  }
}
