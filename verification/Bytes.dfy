/** Bytes, the LSB-first packed bit vectors every layer exchanges, and the two
    readings of a bit sequence: as packed bytes and as a number. */
module Bytes {

  type byte = bv8

  datatype Option<+T> = None | Some(value: T)

  // ---------------------------------------------------------------- one byte

  function BitMask(i: nat): byte
    requires i < 8
  {
    (1 as byte) << i
  }

  predicate Bit(b: byte, i: nat)
    requires i < 8
  {
    (b >> i) & 1 == 1
  }

  /** Bit 0 is the least significant. */
  lemma BitWeights(i: nat, j: nat)
    requires i < 8 && j < 8
    ensures var weights: seq<byte> := [0x01, 0x02, 0x04, 0x08, 0x10, 0x20, 0x40, 0x80];
      BitMask(i) == weights[i] && (Bit(weights[i], j) <==> i == j)
  {
    assert i in {0, 1, 2, 3, 4, 5, 6, 7} && j in {0, 1, 2, 3, 4, 5, 6, 7};
  }

  lemma BitOfOr(b: byte, i: nat, j: nat)
    requires i < 8 && j < 8
    ensures Bit(b | BitMask(i), j) == (Bit(b, j) || i == j)
  {
    assert i in {0, 1, 2, 3, 4, 5, 6, 7} && j in {0, 1, 2, 3, 4, 5, 6, 7};
  }

  lemma BitOfZero(j: nat)
    requires j < 8
    ensures !Bit(0, j)
  {
    assert j in {0, 1, 2, 3, 4, 5, 6, 7};
  }

  lemma SameBitsSameByte(a: byte, b: byte)
    requires forall i {:trigger Bit(a, i)} :: 0 <= i < 8 ==> Bit(a, i) == Bit(b, i)
    ensures a == b
  {
    assert Bit(a, 0) == Bit(b, 0) && Bit(a, 1) == Bit(b, 1) && Bit(a, 2) == Bit(b, 2) && Bit(a, 3) == Bit(b, 3);
    assert Bit(a, 4) == Bit(b, 4) && Bit(a, 5) == Bit(b, 5) && Bit(a, 6) == Bit(b, 6) && Bit(a, 7) == Bit(b, 7);
  }

  function ByteOf(n: int): (b: byte)
    requires 0 <= n < 256
    ensures b as int == n
  {
    n as byte
  }

  // ------------------------------------------------------ packed bit vectors

  predicate GetBit(buf: seq<byte>, k: nat)
    requires k < 8 * |buf|
  {
    Bit(buf[k / 8], k % 8)
  }

  function Bits(buf: seq<byte>, from: nat, n: nat): (r: seq<bool>)
    requires from + n <= 8 * |buf|
    ensures |r| == n
  {
    seq(n, i requires 0 <= i < n => GetBit(buf, from + i))
  }

  function Falses(n: nat): (r: seq<bool>)
    ensures |r| == n
  {
    seq(n, _ => false)
  }

  function Zeros(bits: nat): (r: seq<byte>)
    ensures |r| == (bits + 7) / 8
  {
    seq((bits + 7) / 8, _ => 0)
  }

  lemma GetBitOfZeros(bits: nat)
    ensures forall k {:trigger GetBit(Zeros(bits), k)} :: 0 <= k < 8 * |Zeros(bits)| ==> !GetBit(Zeros(bits), k)
  {
    forall k {:trigger GetBit(Zeros(bits), k)} | 0 <= k < 8 * |Zeros(bits)| ensures !GetBit(Zeros(bits), k) {
      BitOfZero(k % 8);
    }
  }

  /** The step every packing loop takes: raise bit k. */
  function RaiseBit(buf: seq<byte>, k: nat): (r: seq<byte>)
    requires k < 8 * |buf|
    ensures |r| == |buf|
  {
    buf[k / 8 := buf[k / 8] | BitMask(k % 8)]
  }

  lemma GetBitOfRaise(buf: seq<byte>, k: nat, j: nat)
    requires k < 8 * |buf| && j < 8 * |buf|
    ensures GetBit(RaiseBit(buf, k), j) == (GetBit(buf, j) || j == k)
  {
    BitOfOr(buf[k / 8], k % 8, j % 8);
  }

  lemma SameBitsSameBuffer(a: seq<byte>, b: seq<byte>)
    requires |a| == |b|
    requires forall k {:trigger GetBit(a, k)} :: 0 <= k < 8 * |a| ==> GetBit(a, k) == GetBit(b, k)
    ensures a == b
  {
    forall i | 0 <= i < |a| ensures a[i] == b[i] {
      forall j {:trigger Bit(a[i], j)} | 0 <= j < 8 ensures Bit(a[i], j) == Bit(b[i], j) {
        assert (8 * i + j) / 8 == i && (8 * i + j) % 8 == j;
        assert GetBit(a, 8 * i + j) == GetBit(b, 8 * i + j);
      }
      SameBitsSameByte(a[i], b[i]);
    }
  }

  /** buf holds exactly `bits`, LSB first, in the fewest bytes, padded with zeros. */
  ghost predicate Packs(buf: seq<byte>, bits: seq<bool>) {
    && |buf| == (|bits| + 7) / 8
    && forall k {:trigger GetBit(buf, k)} :: 0 <= k < 8 * |buf| ==> GetBit(buf, k) == (k < |bits| && bits[k])
  }

  lemma BitsOfPacked(buf: seq<byte>, bits: seq<bool>)
    requires Packs(buf, bits)
    ensures Bits(buf, 0, |bits|) == bits
  {
  }

  /** ORs `n` bits of src, starting at bit `from`, into dst starting at bit `at`. */
  method OrBits(dst: seq<byte>, at: nat, src: seq<byte>, from: nat, n: nat) returns (r: seq<byte>)
    requires from + n <= 8 * |src| && at + n <= 8 * |dst|
    ensures |r| == |dst|
    ensures forall k {:trigger GetBit(r, k)} :: 0 <= k < 8 * |r| ==>
      GetBit(r, k) == (GetBit(dst, k) || (at <= k < at + n && GetBit(src, from + k - at)))
  {
    r := dst;
    for b := 0 to n
      invariant |r| == |dst|
      invariant forall k {:trigger GetBit(r, k)} :: 0 <= k < 8 * |r| ==>
        GetBit(r, k) == (GetBit(dst, k) || (at <= k < at + b && GetBit(src, from + k - at)))
    {
      if GetBit(src, from + b) {
        var was := r;
        r := RaiseBit(was, at + b);
        forall k {:trigger GetBit(r, k)} | 0 <= k < 8 * |r|
          ensures GetBit(r, k) == (GetBit(was, k) || k == at + b)
        {
          GetBitOfRaise(was, at + b, k);
        }
      }
    }
  }

  // ----------------------------------------------------------------- numbers

  function Pow2(n: nat): (r: nat)
    ensures r > 0
  {
    if n == 0 then 1 else 2 * Pow2(n - 1)
  }

  lemma KnownPowers()
    ensures Pow2(4) == 16 && Pow2(8) == 256 && Pow2(11) == 2048 && Pow2(16) == 65536 && Pow2(17) == 131072
    ensures Pow2(32) == 0x1_0000_0000
  {
    assert Pow2(8) == 256;
    assert Pow2(16) == 65536 by { Shift8(8); }
    assert Pow2(24) == 0x100_0000 by { Shift8(16); }
    Shift8(3);
    Shift8(24);
  }

  lemma Shift8(n: nat)
    ensures Pow2(n + 8) == 256 * Pow2(n)
  {
    assert Pow2(n + 2) == 4 * Pow2(n) && Pow2(n + 4) == 4 * Pow2(n + 2);
    assert Pow2(n + 6) == 4 * Pow2(n + 4);
  }

  lemma {:induction false} Pow2Grows(a: nat, b: nat)
    requires a <= b
    ensures Pow2(a) <= Pow2(b)
    decreases b
  {
    if a < b { Pow2Grows(a, b - 1); }
  }

  /** The n low bits of v, least significant first. */
  function NatBits(v: nat, n: nat): (r: seq<bool>)
    ensures |r| == n
  {
    if n == 0 then [] else [v % 2 == 1] + NatBits(v / 2, n - 1)
  }

  function BitsNat(bits: seq<bool>): (r: nat)
    ensures r < Pow2(|bits|)
  {
    if bits == [] then 0 else (if bits[0] then 1 else 0) + 2 * BitsNat(bits[1..])
  }

  lemma {:induction false} BitsNatOfNatBits(v: nat, n: nat)
    ensures BitsNat(NatBits(v, n)) == v % Pow2(n)
  {
    if n > 0 {
      BitsNatOfNatBits(v / 2, n - 1);
      assert NatBits(v, n)[1..] == NatBits(v / 2, n - 1);
      HalveMod(v, Pow2(n - 1));
    }
  }

  lemma HalveMod(v: nat, m: nat)
    requires m > 0
    ensures v % (2 * m) == v % 2 + 2 * ((v / 2) % m)
  {
    var q, r := (v / 2) / m, (v / 2) % m;
    assert v / 2 == q * m + r;
    assert v == q * (2 * m) + (v % 2 + 2 * r);
    DivModIs(v, 2 * m, q, v % 2 + 2 * r);
  }

  lemma DivModIs(v: nat, m: nat, q: nat, r: nat)
    requires r < m && v == q * m + r
    ensures v / m == q && v % m == r
  {
    var d := v / m - q;
    assert d * m == r - v % m;
    if d > 0 { MulAtLeast(d, m); } else if d < 0 { MulAtLeast(-d, m); }
  }

  lemma MulAtLeast(d: int, m: int)
    requires d >= 1 && m >= 0
    ensures d * m >= m
  {
    assert (d - 1) * m >= 0;
  }

  lemma StepFrom(a: nat, m: nat, q: nat, r: nat)
    requires r < m && a == q * m + r
    ensures (a + 1) % m == if r + 1 == m then 0 else r + 1
  {
    if r + 1 == m {
      assert (q + 1) * m == q * m + m;
      DivModIs(a + 1, m, q + 1, 0);
    } else {
      DivModIs(a + 1, m, q, r + 1);
    }
  }

  lemma ModStep(a: nat, m: nat)
    requires m > 0
    ensures (a % m + 1) % m == (a + 1) % m
  {
    StepFrom(a, m, a / m, a % m);
    StepFrom(a % m, m, 0, a % m);
  }

  lemma {:induction false} NatBitsOfBitsNat(bits: seq<bool>)
    ensures NatBits(BitsNat(bits), |bits|) == bits
  {
    if bits != [] {
      NatBitsOfBitsNat(bits[1..]);
    }
  }

  lemma {:induction false} BitsNatSnoc(s: seq<bool>, b: bool)
    ensures BitsNat(s + [b]) == BitsNat(s) + (if b then Pow2(|s|) else 0)
  {
    if s == [] {
      assert [b][1..] == [];
      assert s + [b] == [b];
    } else {
      assert (s + [b])[1..] == s[1..] + [b];
      BitsNatSnoc(s[1..], b);
    }
  }

  /** The number held LSB first in bits from..from + n. */
  method ReadNumber(buf: seq<byte>, from: nat, n: nat) returns (v: nat)
    requires from + n <= 8 * |buf|
    ensures v == BitsNat(Bits(buf, from, n))
  {
    hide Bit, GetBit;
    v := 0;
    var weight := 1;
    for i := 0 to n
      invariant v == BitsNat(Bits(buf, from, i)) && weight == Pow2(i)
    {
      BitsNatSnoc(Bits(buf, from, i), GetBit(buf, from + i));
      assert Bits(buf, from, i + 1) == Bits(buf, from, i) + [GetBit(buf, from + i)];
      if GetBit(buf, from + i) {
        v := v + weight;
      }
      weight := 2 * weight;
    }
  }

  /** Whether some bit in from..from + n is set. */
  method AnySet(buf: seq<byte>, from: nat, n: nat) returns (any: bool)
    requires from + n <= 8 * |buf|
    ensures any <==> true in Bits(buf, from, n)
  {
    hide Bit, GetBit;
    for i := 0 to n
      invariant true !in Bits(buf, from, i)
    {
      assert Bits(buf, from, i + 1) == Bits(buf, from, i) + [GetBit(buf, from + i)];
      if GetBit(buf, from + i) {
        assert Bits(buf, from, n)[i];
        return true;
      }
    }
    any := false;
  }

  // ------------------------------------------------------- fields of a word

  lemma HalfOf(bits: seq<bool>)
    requires bits != []
    ensures BitsNat(bits) / 2 == BitsNat(bits[1..])
  {
  }

  lemma {:induction false} LowBits(a: seq<bool>, b: seq<bool>)
    ensures BitsNat(a + b) % Pow2(|a|) == BitsNat(a)
  {
    NatBitsOfBitsNat(a + b);
    PrefixValue(BitsNat(a + b), |a + b|, |a|);
    assert (a + b)[..|a|] == a;
    BitsNatOfNatBits(BitsNat(a + b), |a|);
  }

  lemma {:induction false} PrefixValue(v: nat, n: nat, m: nat)
    requires m <= n
    ensures NatBits(v, n)[..m] == NatBits(v, m)
  {
    if m > 0 { PrefixValue(v / 2, n - 1, m - 1); }
  }

  lemma HalfThen(v: nat, m: nat)
    requires m > 0
    ensures v / (2 * m) == v / 2 / m
  {
    var q, r := v / 2 / m, v / 2 % m;
    assert v == 2 * (v / 2) + v % 2 && v / 2 == q * m + r;
    assert v == q * (2 * m) + (2 * r + v % 2) by { assert 2 * (q * m) == q * (2 * m); }
    DivModIs(v, 2 * m, q, 2 * r + v % 2);
  }

  lemma {:induction false} HighBits(bits: seq<bool>, k: nat)
    requires k <= |bits|
    ensures BitsNat(bits) / Pow2(k) == BitsNat(bits[k..])
  {
    hide BitsNat;
    if k > 0 {
      HalfOf(bits);
      HighBits(bits[1..], k - 1);
      HalfThen(BitsNat(bits), Pow2(k - 1));
      assert bits[1..][k - 1..] == bits[k..];
    } else {
      assert bits[0..] == bits;
    }
  }

  /** A field cut out of a number by division and remainder is the number of its bits. */
  lemma FieldOf(bits: seq<bool>, k: nat, m: nat)
    requires k + m <= |bits|
    ensures BitsNat(bits) / Pow2(k) % Pow2(m) == BitsNat(bits[k..k + m])
  {
    hide BitsNat, Pow2;
    var field, high := bits[k..k + m], bits[k..];
    assert high == field + bits[k + m..];
    HighBits(bits, k);
    LowField(high, field, bits[k + m..], m);
    QuotThen(BitsNat(bits), Pow2(k), Pow2(m), BitsNat(high), BitsNat(field));
  }

  lemma LowField(high: seq<bool>, field: seq<bool>, rest: seq<bool>, m: nat)
    requires high == field + rest && |field| == m
    ensures BitsNat(high) % Pow2(m) == BitsNat(field)
  {
    hide BitsNat, Pow2;
    LowBits(field, rest);
  }

  lemma QuotThen(v: nat, p: nat, q: nat, h: nat, f: nat)
    requires p > 0 && q > 0 && v / p == h && h % q == f
    ensures v / p % q == f
  {
  }
}
