/** 32-bit words in memory and on the wire. */
module Words {

  import opened Basics

  newtype Octet = x: int | 0 <= x < 256

  type Bytes = seq<Octet>

  type Word = n: nat | n < UINT32

  /** The four bytes of a word, most significant first (network byte order). */
  function BigEndian(n: nat): (b: Bytes)
    requires n < UINT32
    ensures |b| == 4
  {
    var p := n / 256;
    var q := p / 256;
    [(q / 256) as Octet, (q % 256) as Octet, (p % 256) as Octet, (n % 256) as Octet]
  }

  function FromBigEndian(b: Bytes): (n: nat)
    requires |b| == 4
    ensures n < UINT32
  {
    ((b[0] as nat * 256 + b[1] as nat) * 256 + b[2] as nat) * 256 + b[3] as nat
  }

  /** Positional value: the first byte counts 2^24, the last one 1. */
  lemma MostSignificantFirst(n: nat, b: Bytes)
    requires n < UINT32 && |b| == 4
    ensures var w := BigEndian(n);
            w[0] as nat * 0x100_0000 + w[1] as nat * 0x1_0000 + w[2] as nat * 0x100 + w[3] as nat == n
    ensures FromBigEndian(b) ==
            b[0] as nat * 0x100_0000 + b[1] as nat * 0x1_0000 + b[2] as nat * 0x100 + b[3] as nat
  {
    WordSurvives(n);
  }

  lemma WordSurvives(n: nat)
    requires n < UINT32
    ensures FromBigEndian(BigEndian(n)) == n
  {
  }

  lemma LastDigit(p: nat, d: nat)
    requires d < 256
    ensures (p * 256 + d) / 256 == p && (p * 256 + d) % 256 == d
  {
  }

  lemma BytesSurvive(b: Bytes)
    requires |b| == 4
    ensures BigEndian(FromBigEndian(b)) == b
  {
    var q := b[0] as nat * 256 + b[1] as nat;
    var p := q * 256 + b[2] as nat;
    LastDigit(b[0] as nat, b[1] as nat);
    LastDigit(q, b[2] as nat);
    LastDigit(p, b[3] as nat);
  }

  // ----- the host's own byte order

  function Reverse(b: Bytes): (r: Bytes)
    requires |b| == 4
    ensures |r| == 4
  {
    [b[3], b[2], b[1], b[0]]
  }

  /** `memcpy` from a word of a little- or big-endian host. */
  function Store(n: nat, little: bool): (b: Bytes)
    requires n < UINT32
    ensures |b| == 4
  {
    if little then Reverse(BigEndian(n)) else BigEndian(n)
  }

  /** `memcpy` into a word. */
  function Load(b: Bytes, little: bool): (n: nat)
    requires |b| == 4
    ensures n < UINT32
  {
    FromBigEndian(if little then Reverse(b) else b)
  }

  /** `htonl`, which is also `ntohl`. */
  function Swap(n: nat, little: bool): (r: nat)
    requires n < UINT32
    ensures r < UINT32
  {
    if little then FromBigEndian(Reverse(BigEndian(n))) else n
  }

  /** Whatever the host's byte order, the wire carries the most significant byte first. */
  lemma WireOrder(n: nat, b: Bytes, little: bool)
    requires n < UINT32 && |b| == 4
    ensures Store(Swap(n, little), little) == BigEndian(n)
    ensures Swap(Load(b, little), little) == FromBigEndian(b)
  {
    BytesSurvive(Reverse(BigEndian(n)));
    BytesSurvive(Reverse(b));
  }
}

/**
  CRC-32 as zlib computes it (section 8 of RFC 1952), on a register of 32 bits
  that are listed from the least significant one.
 */
module Checksums {

  import opened Basics
  import opened Words

  type Register = c: seq<bool> | |c| == 32 witness Fill(false, 32)

  function Fill(b: bool, k: nat): (c: seq<bool>)
    ensures |c| == k && forall i :: 0 <= i < k ==> c[i] == b
  {
    if k == 0 then [] else [b] + Fill(b, k - 1)
  }

  function ToBits(n: nat, k: nat): (c: seq<bool>)
    ensures |c| == k
  {
    if k == 0 then [] else [n % 2 == 1] + ToBits(n / 2, k - 1)
  }

  function FromBits(c: seq<bool>): (n: nat)
    ensures n < Pow2(|c|)
  {
    if c == [] then 0 else (if c[0] then 1 else 0) + 2 * FromBits(c[1..])
  }

  lemma Pow2At32()
    ensures Pow2(31) == 0x8000_0000 && Pow2(32) == UINT32
  {
    Pow2By8(0);
    Pow2By8(8);
    Pow2By8(16);
    Pow2By8(24);
    assert Pow2(32) == 2 * Pow2(31);
  }

  const POLYNOMIAL: Register := ToBits(0xEDB8_8320, 32)
  const ONES: Register := Fill(true, 32)

  function XorBits(c: seq<bool>, d: seq<bool>): (e: seq<bool>)
    requires |c| == |d|
    ensures |e| == |c| && forall i :: 0 <= i < |c| ==> e[i] == (c[i] != d[i])
  {
    if c == [] then [] else [c[0] != d[0]] + XorBits(c[1..], d[1..])
  }

  function Xor(c: Register, d: Register): Register {
    XorBits(c, d)
  }

  function Shift(c: Register): Register {
    c[1..] + [false]
  }

  function Bit(c: Register): Register {
    if c[0] then Xor(POLYNOMIAL, Shift(c)) else Shift(c)
  }

  function Bits(c: Register, n: nat): Register
    decreases n
  {
    if n == 0 then c else Bits(Bit(c), n - 1)
  }

  function Widen(x: Octet): Register {
    ToBits(x as nat, 8) + Fill(false, 24)
  }

  function Update(c: Register, data: Bytes): Register
    decreases data
  {
    if data == [] then c else Update(Bits(Xor(Widen(data[0]), c), 8), data[1..])
  }

  function Crc32(data: Bytes): Word {
    Pow2At32();
    FromBits(Xor(ONES, Update(ONES, data)))
  }

  // ----- each stage is injective

  lemma {:induction false} ToBitsInjective(m: nat, n: nat, k: nat)
    requires m < Pow2(k) && n < Pow2(k) && ToBits(m, k) == ToBits(n, k)
    ensures m == n
  {
    if k > 0 {
      assert ToBits(m, k)[0] == ToBits(n, k)[0];
      assert ToBits(m, k)[1..] == ToBits(m / 2, k - 1) && ToBits(n, k)[1..] == ToBits(n / 2, k - 1);
      ToBitsInjective(m / 2, n / 2, k - 1);
    }
  }

  lemma {:induction false} FromBitsInjective(c: seq<bool>, d: seq<bool>)
    requires |c| == |d| && FromBits(c) == FromBits(d)
    ensures c == d
  {
    if c != [] {
      FromBitsInjective(c[1..], d[1..]);
      assert c == [c[0]] + c[1..] && d == [d[0]] + d[1..];
    }
  }

  lemma XorInjective(c: Register, d: Register, x: Register)
    requires Xor(x, c) == Xor(x, d)
    ensures c == d
  {
  }

  lemma XorSymmetric(c: Register, d: Register)
    ensures Xor(c, d) == Xor(d, c)
  {
  }

  /** The polynomial's top bit is set, so the bit shifted out can be read off the result. */
  lemma TopBit(c: Register)
    ensures Bit(c)[31] == c[0]
  {
    TopOfPolynomial();
  }

  lemma {:induction false} ToBitsTop(n: nat, k: nat)
    requires Pow2(k) <= n < Pow2(k + 1)
    ensures ToBits(n, k + 1)[k]
  {
    if k > 0 {
      assert Pow2(k) == 2 * Pow2(k - 1);
      ToBitsTop(n / 2, k - 1);
    }
  }

  lemma TopOfPolynomial()
    ensures POLYNOMIAL[31]
  {
    Pow2At32();
    ToBitsTop(0xEDB8_8320, 31);
  }

  lemma BitInjective(c: Register, d: Register)
    requires Bit(c) == Bit(d)
    ensures c == d
  {
    TopBit(c);
    TopBit(d);
    if c[0] { XorInjective(Shift(c), Shift(d), POLYNOMIAL); }
    assert c[1..] == Shift(c)[..31] && d[1..] == Shift(d)[..31];
    assert c == [c[0]] + c[1..] && d == [d[0]] + d[1..];
  }

  lemma {:induction false} BitsInjective(c: Register, d: Register, n: nat)
    requires Bits(c, n) == Bits(d, n)
    ensures c == d
    decreases n
  {
    if n > 0 {
      BitsInjective(Bit(c), Bit(d), n - 1);
      BitInjective(c, d);
    }
  }

  // ----- one bit of data at a time

  /** The bits of the data in the order in which they enter the register. */
  function AllBits(data: Bytes): (bits: seq<bool>)
    ensures |bits| == 8 * |data|
  {
    if data == [] then [] else ToBits(data[0] as nat, 8) + AllBits(data[1..])
  }

  function Pad(bits: seq<bool>): Register
    requires |bits| <= 32
  {
    bits + Fill(false, 32 - |bits|)
  }

  function Feed(c: Register, bits: seq<bool>): Register
    decreases bits
  {
    if bits == [] then c else Feed(Bit(Xor(Pad([bits[0]]), c)), bits[1..])
  }

  /** Bits that are still away from the low end pass a step unchanged. */
  lemma BitSkips(x: Register, c: Register)
    requires !x[0]
    ensures Bit(Xor(x, c)) == Xor(Shift(x), Bit(c))
  {
    assert Shift(Xor(x, c)) == Xor(Shift(x), Shift(c));
    assert Xor(POLYNOMIAL, Xor(Shift(x), Shift(c))) == Xor(Shift(x), Xor(POLYNOMIAL, Shift(c)));
  }

  lemma PadStep(bits: seq<bool>, c: Register)
    requires 0 < |bits| <= 32
    ensures Bit(Xor(Pad(bits), c)) == Xor(Pad(bits[1..]), Bit(Xor(Pad([bits[0]]), c)))
  {
    var late: Register := [false] + bits[1..] + Fill(false, 32 - |bits|);
    assert Xor(Pad(bits), c) == Xor(late, Xor(Pad([bits[0]]), c));
    BitSkips(late, Xor(Pad([bits[0]]), c));
    assert Shift(late) == Pad(bits[1..]);
  }

  lemma XorZero(c: Register)
    ensures Xor(Pad([]), c) == c
  {
  }

  /** Up to 32 bits may as well enter the register at once. */
  lemma {:induction false} FeedAtOnce(c: Register, bits: seq<bool>)
    requires |bits| <= 32
    ensures Feed(c, bits) == Bits(Xor(Pad(bits), c), |bits|)
    decreases bits
  {
    if bits == [] {
      XorZero(c);
    } else {
      FeedAtOnce(Bit(Xor(Pad([bits[0]]), c)), bits[1..]);
      PadStep(bits, c);
    }
  }

  lemma {:induction false} FeedConcat(c: Register, a: seq<bool>, b: seq<bool>)
    ensures Feed(c, a + b) == Feed(Feed(c, a), b)
    decreases a
  {
    if a == [] {
      assert a + b == b;
    } else {
      assert (a + b)[1..] == a[1..] + b;
      FeedConcat(Bit(Xor(Pad([a[0]]), c)), a[1..], b);
    }
  }

  /** The checksum's bytewise loop feeds the bits one by one. */
  lemma {:induction false} UpdateFeeds(c: Register, data: Bytes)
    ensures Update(c, data) == Feed(c, AllBits(data))
    decreases data
  {
    if data != [] {
      var bits := ToBits(data[0] as nat, 8);
      FeedAtOnce(c, bits);
      UpdateFeeds(Feed(c, bits), data[1..]);
      FeedConcat(c, bits, AllBits(data[1..]));
    }
  }

  // ----- what the checksum detects

  lemma {:induction false} FeedInjective(c: Register, d: Register, bits: seq<bool>)
    requires Feed(c, bits) == Feed(d, bits)
    ensures c == d
    decreases bits
  {
    if bits != [] {
      var x := Pad([bits[0]]);
      FeedInjective(Bit(Xor(x, c)), Bit(Xor(x, d)), bits[1..]);
      BitInjective(Xor(x, c), Xor(x, d));
      XorInjective(c, d, x);
    }
  }

  /** Two running checksums that differ stay different over equal data. */
  lemma UpdateInjective(c: Register, d: Register, data: Bytes)
    requires Update(c, data) == Update(d, data)
    ensures c == d
  {
    UpdateFeeds(c, data);
    UpdateFeeds(d, data);
    FeedInjective(c, d, AllBits(data));
  }

  lemma FeedWindow(c: Register, v: seq<bool>, w: seq<bool>)
    requires |v| == |w| <= 32 && Feed(c, v) == Feed(c, w)
    ensures v == w
  {
    FeedAtOnce(c, v);
    FeedAtOnce(c, w);
    BitsInjective(Xor(Pad(v), c), Xor(Pad(w), c), |v|);
    XorSymmetric(Pad(v), c);
    XorSymmetric(Pad(w), c);
    XorInjective(Pad(v), Pad(w), c);
    assert Pad(v)[..|v|] == v && Pad(w)[..|v|] == w;
  }

  lemma FeedParts(c: Register, a: seq<bool>, w: seq<bool>, b: seq<bool>)
    ensures Feed(c, a + w + b) == Feed(Feed(Feed(c, a), w), b)
  {
    FeedConcat(c, a + w, b);
    FeedConcat(c, a, w);
  }

  lemma {:induction false} AllBitsInjective(data: Bytes, data': Bytes)
    requires |data| == |data'| && AllBits(data) == AllBits(data')
    ensures data == data'
    decreases data
  {
    if data != [] {
      var x, y := data[0] as nat, data'[0] as nat;
      assert AllBits(data)[..8] == ToBits(x, 8) && AllBits(data')[..8] == ToBits(y, 8);
      assert AllBits(data)[8..] == AllBits(data[1..]) && AllBits(data')[8..] == AllBits(data'[1..]);
      assert Pow2(8) == 256;
      ToBitsInjective(x, y, 8);
      AllBitsInjective(data[1..], data'[1..]);
      assert data == [data[0]] + data[1..] && data' == [data'[0]] + data'[1..];
    }
  }

  /** The data differ within `n` adjacent bits, from bit `i` on, at the most. */
  ghost predicate Burst(data: Bytes, data': Bytes, i: nat, n: nat) {
    && |data| == |data'| && i + n <= 8 * |data|
    && AllBits(data)[..i] == AllBits(data')[..i] && AllBits(data)[i + n..] == AllBits(data')[i + n..]
  }

  lemma FeedBurst(c: Register, a: seq<bool>, v: seq<bool>, w: seq<bool>, b: seq<bool>)
    requires |v| == |w| <= 32 && Feed(c, a + v + b) == Feed(c, a + w + b)
    ensures v == w
  {
    FeedParts(c, a, v, b);
    FeedParts(c, a, w, b);
    FeedInjective(Feed(Feed(c, a), v), Feed(Feed(c, a), w), b);
    FeedWindow(Feed(c, a), v, w);
  }

  lemma InThree(s: seq<bool>, i: nat, n: nat)
    requires i + n <= |s|
    ensures s == s[..i] + s[i..i + n] + s[i + n..]
  {
  }

  lemma UpdateBurst(c: Register, data: Bytes, data': Bytes, i: nat, n: nat)
    requires Burst(data, data', i, n) && n <= 32 && Update(c, data) == Update(c, data')
    ensures data == data'
  {
    var s, t := AllBits(data), AllBits(data');
    InThree(s, i, n);
    InThree(t, i, n);
    UpdateFeeds(c, data);
    UpdateFeeds(c, data');
    FeedBurst(c, s[..i], s[i..i + n], t[i..i + n], s[i + n..]);
    AllBitsInjective(data, data');
  }

  /** Every change within 32 adjacent bits, wherever they begin, changes the checksum. */
  lemma BurstDetected(data: Bytes, data': Bytes, i: nat, n: nat)
    requires Burst(data, data', i, n) && n <= 32
    ensures Crc32(data) == Crc32(data') <==> data == data'
  {
    if Crc32(data) == Crc32(data') {
      FromBitsInjective(Xor(ONES, Update(ONES, data)), Xor(ONES, Update(ONES, data')));
      XorInjective(Update(ONES, data), Update(ONES, data'), ONES);
      UpdateBurst(ONES, data, data', i, n);
    }
  }

  lemma {:induction false} AllBitsConcat(a: Bytes, b: Bytes)
    ensures AllBits(a + b) == AllBits(a) + AllBits(b)
    decreases a
  {
    if a == [] {
      assert a + b == b;
    } else {
      assert (a + b)[1..] == a[1..] + b;
      AllBitsConcat(a[1..], b);
      Regroup(ToBits(a[0] as nat, 8), AllBits(a[1..]), AllBits(b));
    }
  }

  /** Changes to adjacent bytes are a burst. */
  lemma BytesAreBurst(a: Bytes, v: Bytes, w: Bytes, b: Bytes)
    requires |v| == |w|
    ensures Burst(a + v + b, a + w + b, 8 * |a|, 8 * |v|)
  {
    AllBitsConcat(a + v, b);
    AllBitsConcat(a + w, b);
    AllBitsConcat(a, v);
    AllBitsConcat(a, w);
  }

  /** Changing any one byte changes the checksum. */
  lemma ByteChangeDetected(data: Bytes, k: nat, y: Octet)
    requires k < |data|
    ensures Crc32(data) == Crc32(data[k := y]) <==> data[k] == y
  {
    var a, b := data[..k], data[k + 1..];
    assert data == a + [data[k]] + b && data[k := y] == a + [y] + b;
    BytesAreBurst(a, [data[k]], [y], b);
    BurstDetected(data, data[k := y], 8 * k, 8);
    assert data[k := y][k] == y;
  }
}
