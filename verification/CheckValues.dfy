/** What pins CRC-32 down: its value on a given text, and the residue that a text followed by its own value leaves. */
module CheckValues {

  import opened Basics
  import opened Words
  import opened Checksums

  // ----- bits and numbers

  lemma {:induction false} FromToBits(n: nat, k: nat)
    requires n < Pow2(k)
    ensures FromBits(ToBits(n, k)) == n
  {
    if k > 0 {
      FromToBits(n / 2, k - 1);
      assert ToBits(n, k)[1..] == ToBits(n / 2, k - 1);
    }
  }

  lemma {:induction false} Complement(c: seq<bool>)
    ensures FromBits(XorBits(Fill(true, |c|), c)) == Pow2(|c|) - 1 - FromBits(c)
  {
    if c != [] {
      Complement(c[1..]);
      assert Fill(true, |c|)[1..] == Fill(true, |c| - 1);
      assert XorBits(Fill(true, |c|), c)[1..] == XorBits(Fill(true, |c| - 1), c[1..]);
    }
  }

  lemma {:induction false} OnesThenZeros(k: nat, n: nat)
    requires k <= n
    ensures ToBits(Pow2(k) - 1, n) == Fill(true, k) + Fill(false, n - k)
    decreases n
  {
    if k > 0 {
      assert (Pow2(k) - 1) / 2 == Pow2(k - 1) - 1;
      OnesThenZeros(k - 1, n - 1);
    } else if n > 0 {
      OnesThenZeros(0, n - 1);
    }
  }

  // ----- the value on a given text

  /** `c` has a single bit, at position `j`. */
  ghost predicate Single(c: Register, j: nat) {
    j < 32 && forall i :: 0 <= i < 32 ==> c[i] == (i == j)
  }

  lemma SingleMoves(c: Register, j: nat)
    requires Single(c, j) && j > 0
    ensures Single(Bit(c), j - 1)
  {
  }

  lemma SingleLeaves(c: Register)
    requires Single(c, 0)
    ensures Bit(c) == POLYNOMIAL
  {
    var d := Shift(c);
    assert forall i :: 0 <= i < 32 ==> !d[i];
    assert Xor(POLYNOMIAL, d) == POLYNOMIAL;
  }

  /** A single bit moves to the low end and leaves the polynomial behind. */
  lemma {:induction false} SingleBit(c: Register, j: nat)
    requires Single(c, j)
    ensures Bits(c, j + 1) == POLYNOMIAL
    decreases j
  {
    if j == 0 {
      SingleLeaves(c);
      assert Bits(Bit(c), 0) == POLYNOMIAL;
    } else {
      SingleMoves(c, j);
      SingleBit(Bit(c), j - 1);
    }
  }

  lemma CheckBits()
    ensures AllBits([255, 255, 255, 127]) == Fill(true, 31) + [false]
  {
    assert Pow2(7) == 128 && Pow2(8) == 256;
    OnesThenZeros(8, 8);
    OnesThenZeros(7, 8);
    var a, b: Bytes := [255, 255], [255, 127];
    assert AllBits(a) == Fill(true, 16) by { assert a[1..] == [255] && [255][1..] == []; }
    assert AllBits(b) == Fill(true, 15) + [false] by { assert b[1..] == [127] && [127][1..] == []; }
    AllBitsConcat(a, b);
    assert a + b == [255, 255, 255, 127];
  }

  lemma CheckRegister()
    ensures Update(ONES, [255, 255, 255, 127]) == POLYNOMIAL
  {
    var data: Bytes := [255, 255, 255, 127];
    var bits := AllBits(data);
    CheckBits();
    UpdateFeeds(ONES, data);
    FeedAtOnce(ONES, bits);
    SingleBit(Xor(Pad(bits), ONES), 31);
  }

  lemma ComplementOf(n: nat)
    requires n < UINT32
    ensures FromBits(Xor(ONES, ToBits(n, 32))) == UINT32 - 1 - n
  {
    Pow2At32();
    Complement(ToBits(n, 32));
    FromToBits(n, 32);
  }

  /** The bytes FF FF FF 7F have the checksum 12477CDF. */
  lemma CheckValue()
    ensures Crc32([255, 255, 255, 127]) == 0x1247_7CDF
  {
    CheckRegister();
    ComplementOf(0xEDB8_8320);
  }

  // ----- the residue

  lemma {:induction false} FromBitsConcat(a: seq<bool>, b: seq<bool>)
    ensures FromBits(a + b) == FromBits(a) + Pow2(|a|) * FromBits(b)
    decreases a
  {
    if a == [] {
      assert a + b == b;
    } else {
      assert (a + b)[1..] == a[1..] + b && (a + b)[0] == a[0];
      FromBitsConcat(a[1..], b);
      var bit := if a[0] then 1 else 0;
      calc {
        FromBits(a + b);
        bit + 2 * FromBits(a[1..] + b);
        bit + 2 * (FromBits(a[1..]) + Pow2(|a| - 1) * FromBits(b));
        { OneBitMore(bit, FromBits(a[1..]), Pow2(|a| - 1), FromBits(b)); }
        FromBits(a) + Pow2(|a|) * FromBits(b);
      }
    }
  }

  lemma OneBitMore(bit: nat, m: nat, p: nat, n: nat)
    ensures bit + 2 * (m + p * n) == bit + 2 * m + 2 * p * n
  {
  }

  /** The number that four bytes stand for, least significant first. */
  function LittleEndian(t: Bytes): nat
    requires |t| == 4
  {
    t[0] as nat + 0x100 * t[1] as nat + 0x1_0000 * t[2] as nat + 0x100_0000 * t[3] as nat
  }

  lemma ByteValue(x: Octet, rest: Bytes)
    ensures FromBits(AllBits([x] + rest)) == x as nat + 256 * FromBits(AllBits(rest))
  {
    assert ([x] + rest)[1..] == rest && Pow2(8) == 256;
    FromToBits(x as nat, 8);
    FromBitsConcat(ToBits(x as nat, 8), AllBits(rest));
  }

  lemma BitsOfFour(t: Bytes)
    requires |t| == 4
    ensures FromBits(AllBits(t)) == LittleEndian(t)
  {
    ByteValue(t[0], t[1..]);
    ByteValue(t[1], t[2..]);
    ByteValue(t[2], t[3..]);
    ByteValue(t[3], []);
    assert t == [t[0]] + t[1..] && t[1..] == [t[1]] + t[2..] && t[2..] == [t[2]] + t[3..] && t[3..] == [t[3]] + [];
  }

  const RESIDUE: nat := FromBits(Xor(ONES, Bits(ONES, 32)))

  lemma FourMore(c: Register, data: Bytes, t: Bytes)
    requires |t| == 4
    ensures Update(c, data + t) == Bits(Xor(Pad(AllBits(t)), Update(c, data)), 32)
  {
    UpdateFeeds(c, data + t);
    UpdateFeeds(c, data);
    AllBitsConcat(data, t);
    FeedConcat(c, AllBits(data), AllBits(t));
    FeedAtOnce(Update(c, data), AllBits(t));
  }

  lemma XorToOnes(v: Register, c: Register)
    ensures Xor(v, c) == ONES <==> v == Xor(ONES, c)
  {
    if Xor(v, c) == ONES {
      assert forall i :: 0 <= i < 32 ==> v[i] == (ONES[i] != c[i]);
    }
    if v == Xor(ONES, c) {
      assert forall i :: 0 <= i < 32 ==> Xor(v, c)[i] == ONES[i];
    }
  }

  lemma ResidueRegister(v: Register, c: Register)
    ensures FromBits(Xor(ONES, Bits(Xor(v, c), 32))) == RESIDUE <==> v == Xor(ONES, c)
  {
    var x := Xor(v, c);
    if FromBits(Xor(ONES, Bits(x, 32))) == RESIDUE {
      FromBitsInjective(Xor(ONES, Bits(x, 32)), Xor(ONES, Bits(ONES, 32)));
      XorInjective(Bits(x, 32), Bits(ONES, 32), ONES);
      BitsInjective(x, ONES, 32);
    }
    XorToOnes(v, c);
  }

  /** Any text with four bytes behind it leaves one and the same value exactly if they are the text's checksum. */
  lemma Residue(data: Bytes, t: Bytes)
    requires |t| == 4
    ensures Crc32(data + t) == RESIDUE <==> LittleEndian(t) == Crc32(data)
  {
    var v, c := AllBits(t), Update(ONES, data);
    assert Pad(v) == v;
    FourMore(ONES, data, t);
    ResidueRegister(v, c);
    BitsOfFour(t);
    if LittleEndian(t) == Crc32(data) { FromBitsInjective(v, Xor(ONES, c)); }
  }
}
