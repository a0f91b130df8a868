/** Bit strings, most significant bit first, and their packing into bytes. */
module Bits {

  type Byte = x: int | 0 <= x < 256

  function Pow2(n: nat): (r: nat)
    ensures r > 0
  {
    if n == 0 then 1 else 2 * Pow2(n - 1)
  }

  lemma {:induction false} Pow2Add(a: nat, b: nat)
    ensures Pow2(a + b) == Pow2(a) * Pow2(b)
    decreases b
  {
    if b > 0 {
      Pow2Add(a, b - 1);
    }
  }

  lemma {:induction false} Pow2Monotone(a: nat, b: nat)
    requires a <= b
    ensures Pow2(a) <= Pow2(b)
    decreases b
  {
    if a < b {
      Pow2Monotone(a, b - 1);
    }
  }

  /** The n low bits of v. */
  function NatBits(n: nat, v: nat): (r: seq<bool>)
    ensures |r| == n
  {
    if n == 0 then [] else NatBits(n - 1, v / 2) + [v % 2 == 1]
  }

  /** The number that a bit string denotes. */
  function ToNat(s: seq<bool>): nat {
    if s == [] then 0 else 2 * ToNat(s[..|s| - 1]) + (if s[|s| - 1] then 1 else 0)
  }

  lemma {:induction false} ToNatBound(s: seq<bool>)
    ensures ToNat(s) < Pow2(|s|)
  {
    if s != [] {
      ToNatBound(s[..|s| - 1]);
    }
  }

  function ByteOf(s: seq<bool>): (b: Byte)
    requires |s| == 8
    ensures b == ToNat(s)
  {
    ToNatBound(s);
    assert Pow2(8) == 256;
    ToNat(s)
  }

  lemma {:induction false} ToNatOfNatBits(n: nat, v: nat)
    requires v < Pow2(n)
    ensures ToNat(NatBits(n, v)) == v
  {
    if n > 0 {
      ToNatOfNatBits(n - 1, v / 2);
      assert NatBits(n, v)[..n - 1] == NatBits(n - 1, v / 2);
    }
  }

  lemma {:induction false} NatBitsOfToNat(s: seq<bool>)
    ensures NatBits(|s|, ToNat(s)) == s
  {
    if s != [] {
      var init := s[..|s| - 1];
      NatBitsOfToNat(init);
      assert ToNat(s) / 2 == ToNat(init);
      assert s == init + [s[|s| - 1]];
    }
  }

  lemma ToNatSnoc(s: seq<bool>, b: bool)
    ensures ToNat(s + [b]) == 2 * ToNat(s) + (if b then 1 else 0)
  {
    assert (s + [b])[..|s|] == s;
  }

  /** v >> k. */
  function Shr(v: nat, k: nat): nat {
    if k == 0 then v else Shr(v / 2, k - 1)
  }

  /** v & (1 << i) is nonzero. */
  predicate Bit(v: nat, i: nat) {
    Shr(v, i) % 2 == 1
  }

  lemma {:induction false} NatBitsAt(n: nat, v: nat, j: nat)
    requires j < n
    ensures NatBits(n, v)[j] == Bit(v, n - 1 - j)
  {
    if j < n - 1 {
      NatBitsAt(n - 1, v / 2, j);
    }
  }

  /** Shifting right by k drops the k low bits. */
  lemma {:induction false} NatBitsSplit(n: nat, v: nat, k: nat)
    requires k <= n
    ensures NatBits(n, v) == NatBits(n - k, Shr(v, k)) + NatBits(k, v)
    decreases k
  {
    if k > 0 {
      NatBitsSplit(n - 1, v / 2, k - 1);
      assert (n - 1) - (k - 1) == n - k;
    }
  }

  lemma {:induction false} ShrAdd(v: nat, a: nat, b: nat)
    ensures Shr(Shr(v, a), b) == Shr(v, a + b)
    decreases a
  {
    if a > 0 {
      ShrAdd(v / 2, a - 1, b);
    }
  }

  /** After all but o bits of v, the next c bits are those of v >> (o - c). */
  lemma NatBitsAdvance(n: nat, v: nat, o: nat, c: nat)
    requires c <= o <= n
    ensures NatBits(n, v)[..n - (o - c)] == NatBits(n, v)[..n - o] + NatBits(c, Shr(v, o - c))
  {
    var u := Shr(v, o - c);
    NatBitsSplit(n, v, o);
    NatBitsSplit(n, v, o - c);
    NatBitsSplit(n - (o - c), u, c);
    ShrAdd(v, o - c, c);
    assert n - (o - c) - c == n - o;
  }

  function Zeros(n: nat): (r: seq<bool>)
    ensures |r| == n
    ensures forall i :: 0 <= i < n ==> !r[i]
  {
    seq(n, i => false)
  }

  lemma {:induction false} ToNatZeros(s: seq<bool>, n: nat)
    ensures ToNat(s + Zeros(n)) == ToNat(s) * Pow2(n)
    decreases n
  {
    hide ToNat;
    if n == 0 {
      assert s + Zeros(0) == s;
    } else {
      var t := s + Zeros(n - 1);
      ToNatZeros(s, n - 1);
      assert s + Zeros(n) == t + [false];
      ToNatSnoc(t, false);
      Doubled(ToNat(s), Pow2(n - 1));
    }
  }

  lemma Doubled(v: nat, p: nat)
    ensures v * (2 * p) == 2 * (v * p)
  {
  }

  /** The bit string that a byte string stands for. */
  function Unpack(bytes: seq<Byte>): (r: seq<bool>)
    ensures |r| == 8 * |bytes|
  {
    if bytes == [] then [] else Unpack(bytes[..|bytes| - 1]) + NatBits(8, bytes[|bytes| - 1])
  }

  lemma UnpackSnoc(bytes: seq<Byte>, b: Byte)
    ensures Unpack(bytes + [b]) == Unpack(bytes) + NatBits(8, b)
  {
    assert (bytes + [b])[..|bytes|] == bytes;
  }

  /** Number of zero bits that fill up the last byte. */
  function Padding(n: nat): (r: nat)
    ensures r < 8 && (n + r) % 8 == 0
  {
    (8 - n % 8) % 8
  }

  /** Distinct byte strings have distinct bit strings. */
  lemma {:induction false} UnpackInjective(a: seq<Byte>, b: seq<Byte>)
    requires Unpack(a) == Unpack(b)
    ensures a == b
    decreases |a|
  {
    assert |Unpack(a)| == |Unpack(b)|;
    assert |a| == |b|;
    if a != [] {
      var n := |a| - 1;
      assert Unpack(a)[..8 * n] == Unpack(a[..n]);
      assert Unpack(b)[..8 * n] == Unpack(b[..n]);
      assert Unpack(a)[8 * n..] == NatBits(8, a[n]);
      assert Unpack(b)[8 * n..] == NatBits(8, b[n]);
      UnpackInjective(a[..n], b[..n]);
      assert Pow2(8) == 256;
      ToNatOfNatBits(8, a[n]);
      ToNatOfNatBits(8, b[n]);
      assert a == a[..n] + [a[n]] && b == b[..n] + [b[n]];
    }
  }

  /** The bytes of a bit string whose length is a multiple of eight. */
  function Pack(bits: seq<bool>): (r: seq<Byte>)
    requires |bits| % 8 == 0
    ensures |r| == |bits| / 8
  {
    if bits == [] then []
    else var n := |bits| - 8; Pack(bits[..n]) + [ByteOf(bits[n..])]
  }

  lemma {:induction false} UnpackPack(bits: seq<bool>)
    requires |bits| % 8 == 0
    ensures Unpack(Pack(bits)) == bits
    decreases |bits|
  {
    if bits != [] {
      var n := |bits| - 8;
      UnpackPack(bits[..n]);
      NatBitsOfToNat(bits[n..]);
      UnpackSnoc(Pack(bits[..n]), ByteOf(bits[n..]));
      assert bits == bits[..n] + bits[n..];
    }
  }
}
