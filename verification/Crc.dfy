/** Cyclic redundancy checks over bytes. */
module Crc {

  /** XORed onto the result, which it leaves as it is. */
  const CRC16_OUTPUT_XOR: bv16 := 0

  // ----- CRC-16 -----

  /** One round of the bit loop. */
  function Step16(crc: bv16): bv16 {
    if crc & 0x8000 != 0 then (crc << 1) ^ 0x1021 else crc << 1
  }

  function Steps16(crc: bv16, n: nat): bv16
    decreases n
  {
    if n == 0 then crc else Steps16(Step16(crc), n - 1)
  }

  function Xor16(a: bv16, b: bv16): bv16 {
    a ^ b
  }

  /** A byte in the high half of the register. */
  function High(value: bv8): bv16 {
    (value as bv16) << 8
  }

  function Add16(crc: bv16, value: bv8): bv16 {
    Steps16(Xor16(crc, High(value)), 8)
  }

  function Fold16(crc: bv16, bytes: seq<bv8>): bv16 {
    if bytes == [] then crc else Add16(Fold16(crc, bytes[..|bytes| - 1]), bytes[|bytes| - 1])
  }

  method Crc16Add(crc: bv16, value: bv8) returns (r: bv16)
    ensures r == Add16(crc, value)
  {
    hide Steps16;
    r := crc ^ ((value as bv16) << 8);
    for i := 0 to 8
      invariant Steps16(r, 8 - i) == Add16(crc, value)
    {
      StepsOnce(r, 8 - i);
      ghost var before := r;
      if r & 0x8000 != 0 {
        r := (r << 1) ^ 0x1021;
      } else {
        r := r << 1;
      }
      assert r == Step16(before);
    }
    StepsNone(r);
  }

  lemma StepsOnce(crc: bv16, n: nat)
    ensures n > 0 ==> Steps16(crc, n) == Steps16(Step16(crc), n - 1)
  {
    hide Step16;
  }

  lemma StepsNone(crc: bv16)
    ensures Steps16(crc, 0) == crc
  {
  }

  method Crc16Signature(initial: bv16, bytes: seq<bv8>) returns (r: bv16)
    ensures r == Fold16(initial, bytes)
  {
    r := initial;
    for i := 0 to |bytes|
      invariant r == Fold16(initial, bytes[..i])
    {
      assert bytes[..i + 1][..i] == bytes[..i];
      r := Crc16Add(r, bytes[i]);
    }
    assert bytes[..|bytes|] == bytes;
    r := r ^ CRC16_OUTPUT_XOR;
  }

  // ----- the round, without its branch -----

  function Masked16(crc: bv16): bv16 {
    (crc << 1) ^ (0x1021 & (0 - (crc >> 15)))
  }

  lemma TopBit16(a: bv16)
    ensures a & 0x8000 == 0 || a & 0x8000 == 0x8000
    ensures a & 0x8000 == 0 ==> a >> 15 == 0
    ensures a & 0x8000 == 0x8000 ==> a >> 15 == 1
  {
  }

  lemma Masks16(x: bv16)
    ensures x ^ (0x1021 & (0 - 0)) == x
    ensures x ^ (0x1021 & (0 - 1)) == x ^ 0x1021
  {
  }

  lemma Branchless16(a: bv16)
    ensures Step16(a) == Masked16(a)
  {
    TopBit16(a);
    Masks16(a << 1);
  }

  lemma MaskedLinear16(a: bv16, b: bv16)
    ensures Masked16(a ^ b) == Masked16(a) ^ Masked16(b)
  {
  }

  lemma MaskedXor16(a: bv16, b: bv16)
    ensures Masked16(Xor16(a, b)) == Xor16(Masked16(a), Masked16(b))
  {
    hide Masked16;
    MaskedLinear16(a, b);
  }

  lemma MaskedInjective16(a: bv16, b: bv16)
    requires Masked16(a) == Masked16(b)
    ensures a == b
  {
  }

  lemma MaskedFeed16(x: bv16, y: bv16)
    requires y & 1 == 0
    ensures Masked16(x ^ (y >> 1)) == Masked16(x) ^ y
  {
  }

  lemma StepLinear16(a: bv16, b: bv16)
    ensures Step16(Xor16(a, b)) == Xor16(Step16(a), Step16(b))
  {
    hide *;
    Branchless16(a);
    Branchless16(b);
    Branchless16(Xor16(a, b));
    MaskedXor16(a, b);
  }

  lemma StepInjective16(a: bv16, b: bv16)
    requires Step16(a) == Step16(b)
    ensures a == b
  {
    hide Step16, Masked16;
    Branchless16(a);
    Branchless16(b);
    MaskedInjective16(a, b);
  }

  lemma StepFeed16(x: bv16, y: bv16)
    requires y & 1 == 0
    ensures Step16(x ^ (y >> 1)) == Step16(x) ^ y
  {
    hide Step16, Masked16;
    Branchless16(x);
    Branchless16(x ^ (y >> 1));
    MaskedFeed16(x, y);
  }

  // ----- XOR-linearity and concatenation -----

  lemma {:induction false} StepsLinear16(a: bv16, b: bv16, n: nat)
    ensures Steps16(Xor16(a, b), n) == Xor16(Steps16(a, n), Steps16(b, n))
    decreases n
  {
    hide Step16, Xor16;
    if n > 0 {
      StepLinear16(a, b);
      StepsLinear16(Step16(a), Step16(b), n - 1);
    }
  }

  function Xor8(a: bv8, b: bv8): bv8 {
    a ^ b
  }

  lemma Widen(x: bv8, y: bv8, a: bv16, b: bv16)
    ensures Xor16(Xor16(a, b), High(Xor8(x, y))) == Xor16(Xor16(a, High(x)), Xor16(b, High(y)))
  {
  }

  lemma AddLinear16(a: bv16, b: bv16, x: bv8, y: bv8)
    ensures Add16(Xor16(a, b), Xor8(x, y)) == Xor16(Add16(a, x), Add16(b, y))
  {
    hide Xor16, High, Xor8, Steps16;
    Widen(x, y, a, b);
    StepsLinear16(Xor16(a, High(x)), Xor16(b, High(y)), 8);
  }

  function Xor(a: seq<bv8>, b: seq<bv8>): (c: seq<bv8>)
    requires |a| == |b|
    ensures |c| == |a|
    ensures forall i :: 0 <= i < |c| ==> c[i] == Xor8(a[i], b[i])
  {
    seq(|a|, i requires 0 <= i < |a| => Xor8(a[i], b[i]))
  }

  /** The check of the XOR of two messages is the XOR of their checks. */
  lemma {:induction false} FoldLinear16(a: bv16, b: bv16, x: seq<bv8>, y: seq<bv8>)
    requires |x| == |y|
    ensures Fold16(Xor16(a, b), Xor(x, y)) == Xor16(Fold16(a, x), Fold16(b, y))
    decreases |x|
  {
    hide Xor16, Xor8, Add16, Xor;
    if x != [] {
      var n := |x| - 1;
      assert Xor(x, y)[..n] == Xor(x[..n], y[..n]);
      FoldLinear16(a, b, x[..n], y[..n]);
      AddLinear16(Fold16(a, x[..n]), Fold16(b, y[..n]), x[n], y[n]);
    }
  }

  lemma {:induction false} FoldConcat16(crc: bv16, a: seq<bv8>, b: seq<bv8>)
    ensures Fold16(crc, a + b) == Fold16(Fold16(crc, a), b)
    decreases |b|
  {
    hide Add16;
    if b == [] {
      assert a + b == a;
    } else {
      var n := |b| - 1;
      assert (a + b)[..|a + b| - 1] == a + b[..n];
      FoldConcat16(crc, a, b[..n]);
    }
  }

  // ----- bit by bit -----

  predicate HighBit(w: bv16) {
    w & 0x8000 != 0
  }

  function Double(w: bv16): bv16 {
    w << 1
  }

  function Half(w: bv16): bv16 {
    w >> 1
  }

  function TopBit(b: bool): bv16 {
    if b then 0x8000 else 0
  }

  /** The n high bits of w, the highest first. */
  function Bits16(w: bv16, n: nat): (bits: seq<bool>)
    ensures |bits| == n
    decreases n
  {
    if n == 0 then [] else [HighBit(w)] + Bits16(Double(w), n - 1)
  }

  /** The bits at the top of a register, the first one highest. */
  function Top16(bits: seq<bool>): bv16 {
    if bits == [] then 0 else Xor16(TopBit(bits[0]), Half(Top16(bits[1..])))
  }

  /** The bits of a message enter the register one by one. */
  function Feed16(crc: bv16, bits: seq<bool>): bv16
    decreases |bits|
  {
    if bits == [] then crc else Feed16(Step16(Xor16(crc, TopBit(bits[0]))), bits[1..])
  }

  function MessageBits(bytes: seq<bv8>): (bits: seq<bool>)
    ensures |bits| == 8 * |bytes|
  {
    if bytes == [] then [] else MessageBits(bytes[..|bytes| - 1]) + Bits16(High(bytes[|bytes| - 1]), 8)
  }

  // The part of a register below its n high bits.

  function LowMask(n: nat): bv16
    decreases n
  {
    if n == 0 then 0xffff else Half(LowMask(n - 1))
  }

  predicate Disjoint(w: bv16, mask: bv16) {
    w & mask == 0
  }

  lemma LowMaskOdd(n: nat)
    requires n <= 15
    ensures LowMask(n) & 1 == 1
  {
    assert LowMask(0) == 0xffff && LowMask(1) == 0x7fff && LowMask(2) == 0x3fff && LowMask(3) == 0x1fff;
    assert LowMask(4) == 0xfff && LowMask(5) == 0x7ff && LowMask(6) == 0x3ff && LowMask(7) == 0x1ff;
    assert LowMask(8) == 0xff && LowMask(9) == 0x7f && LowMask(10) == 0x3f && LowMask(11) == 0x1f;
    assert LowMask(12) == 0xf && LowMask(13) == 7 && LowMask(14) == 3 && LowMask(15) == 1;
    assert n == 0 || n == 1 || n == 2 || n == 3 || n == 4 || n == 5 || n == 6 || n == 7
      || n == 8 || n == 9 || n == 10 || n == 11 || n == 12 || n == 13 || n == 14 || n == 15;
  }

  lemma OneDown(b: bool, t: bv16, mask: bv16)
    requires Disjoint(t, mask)
    ensures Disjoint(Xor16(TopBit(b), Half(t)), Half(mask))
  {
    if b {
      assert (0x8000 ^ (t >> 1)) & (mask >> 1) == 0;
    } else {
      assert (0 ^ (t >> 1)) & (mask >> 1) == 0;
    }
  }

  lemma EvenBelow(t: bv16, mask: bv16)
    requires Disjoint(t, mask) && mask & 1 == 1
    ensures t & 1 == 0
  {
  }

  lemma {:induction false} TopIsHigh(bits: seq<bool>)
    ensures Disjoint(Top16(bits), LowMask(|bits|))
    ensures |bits| <= 15 ==> Top16(bits) & 1 == 0
    decreases |bits|
  {
    hide Xor16, Half, TopBit, Disjoint;
    if bits == [] {
      NoBits();
    } else {
      TopIsHigh(bits[1..]);
      OneDown(bits[0], Top16(bits[1..]), LowMask(|bits| - 1));
    }
    if |bits| <= 15 {
      LowMaskOdd(|bits|);
      EvenBelow(Top16(bits), LowMask(|bits|));
    }
  }

  lemma NoBits()
    ensures Disjoint(0, 0xffff)
  {
  }

  lemma Regroup(a: bv16, b: bv16, c: bv16)
    ensures Xor16(a, Xor16(b, c)) == Xor16(Xor16(a, b), c)
  {
  }

  lemma FeedStep(x: bv16, y: bv16)
    requires y & 1 == 0
    ensures Step16(Xor16(x, Half(y))) == Xor16(Step16(x), y)
  {
    hide Step16;
    StepFeed16(x, y);
  }

  /** Up to 16 bits may as well enter the register at once. */
  lemma {:induction false} FeedAtOnce(crc: bv16, bits: seq<bool>)
    requires |bits| <= 16
    ensures Feed16(crc, bits) == Steps16(Xor16(crc, Top16(bits)), |bits|)
    decreases |bits|
  {
    hide Xor16, Half, TopBit, Step16;
    if bits == [] {
      XorZero(crc);
    } else {
      var x, y := Xor16(crc, TopBit(bits[0])), Top16(bits[1..]);
      FeedAtOnce(Step16(x), bits[1..]);
      TopIsHigh(bits[1..]);
      FeedStep(x, y);
      Regroup(crc, TopBit(bits[0]), Half(y));
    }
  }

  lemma XorZero(crc: bv16)
    ensures Xor16(crc, 0) == crc
  {
  }

  lemma ShiftsBack(t: bv16, u: bv16, x: bv16)
    requires t & 1 == 0 && u & 1 == 0 && Xor16(x, Half(t)) == Xor16(x, Half(u))
    ensures t == u
  {
  }

  lemma TopDiffers(t: bv16, u: bv16)
    ensures Xor16(0x8000, Half(t)) != Xor16(0, Half(u))
  {
  }

  lemma SplitTop(a: bool, t: bv16, b: bool, u: bv16)
    requires t & 1 == 0 && u & 1 == 0
    requires Xor16(TopBit(a), Half(t)) == Xor16(TopBit(b), Half(u))
    ensures a == b && t == u
  {
    hide Xor16, Half;
    if a == b {
      ShiftsBack(t, u, TopBit(a));
    } else if a {
      TopDiffers(t, u);
    } else {
      TopDiffers(u, t);
    }
  }

  lemma {:induction false} TopInjective(u: seq<bool>, v: seq<bool>)
    requires |u| == |v| <= 16 && Top16(u) == Top16(v)
    ensures u == v
    decreases |u|
  {
    hide Xor16, Half, TopBit;
    if u != [] {
      TopIsHigh(u[1..]);
      TopIsHigh(v[1..]);
      SplitTop(u[0], Top16(u[1..]), v[0], Top16(v[1..]));
      TopInjective(u[1..], v[1..]);
      assert u == [u[0]] + u[1..] && v == [v[0]] + v[1..];
    }
  }

  lemma {:induction false} StepsInjective16(a: bv16, b: bv16, n: nat)
    requires Steps16(a, n) == Steps16(b, n)
    ensures a == b
    decreases n
  {
    hide Step16;
    if n > 0 {
      StepsInjective16(Step16(a), Step16(b), n - 1);
      StepInjective16(a, b);
    }
  }

  lemma XorInjective(x: bv16, a: bv16, b: bv16)
    requires Xor16(x, a) == Xor16(x, b) || Xor16(a, x) == Xor16(b, x)
    ensures a == b
  {
  }

  lemma {:induction false} FeedConcat(crc: bv16, u: seq<bool>, v: seq<bool>)
    ensures Feed16(crc, u + v) == Feed16(Feed16(crc, u), v)
    decreases |u|
  {
    hide Xor16, TopBit, Step16;
    if u == [] {
      assert u + v == v;
    } else {
      assert (u + v)[1..] == u[1..] + v;
      FeedConcat(Step16(Xor16(crc, TopBit(u[0]))), u[1..], v);
    }
  }

  lemma {:induction false} FeedInjective(a: bv16, b: bv16, bits: seq<bool>)
    requires Feed16(a, bits) == Feed16(b, bits)
    ensures a == b
    decreases |bits|
  {
    hide Xor16, TopBit, Step16;
    if bits != [] {
      var t := TopBit(bits[0]);
      FeedInjective(Step16(Xor16(a, t)), Step16(Xor16(b, t)), bits[1..]);
      StepInjective16(Xor16(a, t), Xor16(b, t));
      XorInjective(t, a, b);
    }
  }

  // ----- messages as bits -----

  predicate OnlyTop(w: bv16, n: nat)
    decreases n
  {
    if n == 0 then w == 0 else OnlyTop(Double(w), n - 1)
  }

  lemma HighIsTop(v: bv8)
    ensures OnlyTop(High(v), 8)
  {
    hide OnlyTop, Double, High;
    EightDoubles(v);
    OnlyTopEight(High(v));
  }

  lemma EightDoubles(v: bv8)
    ensures Double(Double(Double(Double(Double(Double(Double(Double(High(v))))))))) == 0
  {
  }

  lemma OnlyTopEight(w: bv16)
    requires Double(Double(Double(Double(Double(Double(Double(Double(w)))))))) == 0
    ensures OnlyTop(w, 8)
  {
    hide Double;
  }

  lemma HighBitIs(w: bv16)
    ensures HighBit(w) ==> w & 0x8000 == 0x8000
    ensures !HighBit(w) ==> w & 0x8000 == 0
  {
    TopBit16(w);
  }

  lemma TopKept(w: bv16)
    ensures w & 0x8000 == 0x8000 ==> Xor16(0x8000, Half(Double(w))) == w
    ensures w & 0x8000 == 0 ==> Xor16(0, Half(Double(w))) == w
  {
  }

  lemma TopAndRest(w: bv16)
    ensures Xor16(TopBit(HighBit(w)), Half(Double(w))) == w
  {
    hide Xor16, Half, Double, HighBit;
    HighBitIs(w);
    TopKept(w);
  }

  lemma {:induction false} TopOfBits(w: bv16, n: nat)
    requires OnlyTop(w, n)
    ensures Top16(Bits16(w, n)) == w
    decreases n
  {
    hide Xor16, TopBit, HighBit, Half, Double;
    if n > 0 {
      TopOfBits(Double(w), n - 1);
      TopAndRest(w);
      assert Bits16(w, n)[1..] == Bits16(Double(w), n - 1);
    }
  }

  lemma HighInjective(a: bv8, b: bv8)
    requires High(a) == High(b)
    ensures a == b
  {
  }

  lemma AddIsFeed(crc: bv16, v: bv8)
    ensures Add16(crc, v) == Feed16(crc, Bits16(High(v), 8))
  {
    hide Xor16, High, Bits16, Feed16, Steps16;
    HighIsTop(v);
    TopOfBits(High(v), 8);
    FeedAtOnce(crc, Bits16(High(v), 8));
  }

  lemma {:induction false} FoldIsFeed(crc: bv16, bytes: seq<bv8>)
    ensures Fold16(crc, bytes) == Feed16(crc, MessageBits(bytes))
    decreases |bytes|
  {
    hide Add16, Bits16, High;
    if bytes != [] {
      var init, last := bytes[..|bytes| - 1], bytes[|bytes| - 1];
      FoldIsFeed(crc, init);
      AddIsFeed(Fold16(crc, init), last);
      FeedConcat(crc, MessageBits(init), Bits16(High(last), 8));
    }
  }

  lemma {:induction false} SameBits(a: seq<bv8>, b: seq<bv8>)
    requires |a| == |b| && MessageBits(a) == MessageBits(b)
    ensures a == b
    decreases |a|
  {
    hide Bits16, High;
    if a != [] {
      var n := |a| - 1;
      var x, y := Bits16(High(a[n]), 8), Bits16(High(b[n]), 8);
      assert MessageBits(a)[..8 * n] == MessageBits(a[..n]) && MessageBits(b)[..8 * n] == MessageBits(b[..n]);
      assert MessageBits(a)[8 * n..] == x && MessageBits(b)[8 * n..] == y;
      SameBits(a[..n], b[..n]);
      HighIsTop(a[n]);
      HighIsTop(b[n]);
      TopOfBits(High(a[n]), 8);
      TopOfBits(High(b[n]), 8);
      HighInjective(a[n], b[n]);
      assert a == a[..n] + [a[n]] && b == b[..n] + [b[n]];
    }
  }

  /** Bit strings that differ only within 16 consecutive places leave different registers. */
  lemma BurstInBits(crc: bv16, u: seq<bool>, v: seq<bool>, p: nat)
    requires |u| == |v| && u != v && p <= |u|
    requires forall i :: 0 <= i < |u| && !(p <= i < p + 16) ==> u[i] == v[i]
    ensures Feed16(crc, u) != Feed16(crc, v)
  {
    hide Feed16, Xor16, Steps16, Top16;
    var q := if p + 16 <= |u| then p + 16 else |u|;
    var mu, mv := u[p..q], v[p..q];
    assert u[..p] == v[..p] && u[q..] == v[q..];
    assert u == u[..p] + mu + u[q..] && v == v[..p] + mv + v[q..];
    var s := Feed16(crc, u[..p]);
    FeedConcat(crc, u[..p], mu);
    FeedConcat(crc, v[..p], mv);
    FeedConcat(crc, u[..p] + mu, u[q..]);
    FeedConcat(crc, v[..p] + mv, v[q..]);
    FeedAtOnce(s, mu);
    FeedAtOnce(s, mv);
    if Feed16(crc, u) == Feed16(crc, v) {
      FeedInjective(Feed16(s, mu), Feed16(s, mv), u[q..]);
      StepsInjective16(Xor16(s, Top16(mu)), Xor16(s, Top16(mv)), q - p);
      XorInjective(s, Top16(mu), Top16(mv));
      TopInjective(mu, mv);
    }
  }

  /** Two messages of the same length that differ only within 16 consecutive bits have different checks. */
  lemma BurstDetected(initial: bv16, a: seq<bv8>, b: seq<bv8>, p: nat)
    requires |a| == |b| && a != b
    requires forall i :: 0 <= i < 8 * |a| && !(p <= i < p + 16) ==> MessageBits(a)[i] == MessageBits(b)[i]
    ensures Fold16(initial, a) != Fold16(initial, b)
  {
    hide Fold16;
    if MessageBits(a) == MessageBits(b) {
      SameBits(a, b);
    }
    FoldIsFeed(initial, a);
    FoldIsFeed(initial, b);
    BurstInBits(initial, MessageBits(a), MessageBits(b), if p <= 8 * |a| then p else 8 * |a|);
  }

  /** With 17 bits that no longer holds: these differences cancel out. */
  lemma SeventeenBitsUndetected(initial: bv16, x: bv8, y: bv8, z: bv8)
    ensures Fold16(initial, [x, y, z]) == Fold16(initial, Xor([x, y, z], [0x88, 0x10, 0x80]))
  {
    FoldLinear16(initial, 0, [x, y, z], [0x88, 0x10, 0x80]);
    PolynomialIsZero();
    XorZero(initial);
    XorZero(Fold16(initial, [x, y, z]));
  }

  lemma PolynomialIsZero()
    ensures Fold16(0, [0x88, 0x10, 0x80]) == 0
  {
    hide Add16, Fold16;
    FoldThree(0, 0x88, 0x10, 0x80);
    FirstByte();
    SecondByte();
    ThirdByte();
  }

  lemma FoldThree(crc: bv16, x: bv8, y: bv8, z: bv8)
    ensures Fold16(crc, [x, y, z]) == Add16(Add16(Add16(crc, x), y), z)
  {
    hide Add16;
    assert [x, y, z][..2] == [x, y] && [x, y][..1] == [x] && [x][..0] == [];
    assert Fold16(crc, [x]) == Add16(crc, x);
    assert Fold16(crc, [x, y]) == Add16(Add16(crc, x), y);
  }

  lemma FirstByte()
    ensures Add16(0, 0x88) == 0x1080
  {
  }

  lemma SecondByte()
    ensures Add16(0x1080, 0x10) == 0x8000
  {
  }

  lemma ThirdByte()
    ensures Add16(0x8000, 0x80) == 0
  {
  }

  // ----- CRC-32 -----

  /** One round of the bit loop, with its mask. */
  function Step32(acc: bv32): bv32 {
    (acc >> 1) ^ (0xedb88320 & (0 - (acc & 1)))
  }

  function Steps32(acc: bv32, n: nat): bv32
    decreases n
  {
    if n == 0 then acc else Steps32(Step32(acc), n - 1)
  }

  function Fold32(acc: bv32, bytes: seq<bv8>): bv32 {
    if bytes == [] then acc
    else Steps32(Xor32(Fold32(acc, bytes[..|bytes| - 1]), bytes[|bytes| - 1] as bv32), 8)
  }

  function Xor32(a: bv32, b: bv32): bv32 {
    a ^ b
  }

  method Crc32Signature(initial: bv32, bytes: seq<bv8>) returns (acc: bv32)
    ensures acc == Fold32(initial, bytes)
  {
    acc := initial;
    for i := 0 to |bytes|
      invariant acc == Fold32(initial, bytes[..i])
    {
      assert bytes[..i + 1][..i] == bytes[..i];
      acc := acc ^ (bytes[i] as bv32);
      var w := 8;
      while w > 0
        invariant w >= 0 && Steps32(acc, w) == Fold32(initial, bytes[..i + 1])
      {
        w := w - 1;
        var mask := 0 - (acc & 1);
        acc := acc >> 1;
        acc := acc ^ (0xedb88320 & mask);
      }
    }
    assert bytes[..|bytes|] == bytes;
  }

  // The table-driven form of RFC 1952, section 8.

  function RfcRound(c: bv32): bv32 {
    if c & 1 != 0 then 0xedb88320 ^ (c >> 1) else c >> 1
  }

  function RfcTable(c: bv32, k: nat): bv32
    decreases k
  {
    if k == 0 then c else RfcTable(RfcRound(c), k - 1)
  }

  /** The table entry for the low byte, and the rest moved down. */
  function RfcByte(c: bv32, b: bv8): bv32 {
    Xor32(RfcTable(LowByte(Xor32(c, b as bv32)), 8), Down(c))
  }

  function LowByte(c: bv32): bv32 {
    c & 0xff
  }

  function Down(c: bv32): bv32 {
    c >> 8
  }

  /** update_crc without the inversions before and after. */
  function RfcUpdate(c: bv32, bytes: seq<bv8>): bv32 {
    if bytes == [] then c else RfcByte(RfcUpdate(c, bytes[..|bytes| - 1]), bytes[|bytes| - 1])
  }

  lemma LowBit32(c: bv32)
    ensures c & 1 == 0 || c & 1 == 1
  {
  }

  lemma Masks32(x: bv32)
    ensures x ^ (0xedb88320 & (0 - 0)) == x
    ensures x ^ (0xedb88320 & (0 - 1)) == 0xedb88320 ^ x
  {
  }

  lemma SameRound(c: bv32)
    ensures Step32(c) == RfcRound(c)
  {
    LowBit32(c);
    Masks32(c >> 1);
  }

  lemma {:induction false} SameTable(c: bv32, k: nat)
    ensures RfcTable(c, k) == Steps32(c, k)
    decreases k
  {
    hide RfcRound, Step32;
    if k > 0 {
      SameRound(c);
      SameTable(Step32(c), k - 1);
    }
  }

  lemma ShiftLinear32(a: bv32, b: bv32)
    ensures (a ^ b) >> 1 == (a >> 1) ^ (b >> 1)
    ensures (a ^ b) & 1 == (a & 1) ^ (b & 1)
  {
  }

  lemma RoundCases32(c: bv32)
    ensures c & 1 == 0 ==> Step32(c) == c >> 1
    ensures c & 1 == 1 ==> Step32(c) == 0xedb88320 ^ (c >> 1)
  {
    Masks32(c >> 1);
  }

  lemma XorCases(x: bv32, y: bv32, p: bv32)
    ensures (p ^ x) ^ y == p ^ (x ^ y) && x ^ (p ^ y) == p ^ (x ^ y) && (p ^ x) ^ (p ^ y) == x ^ y
  {
  }

  lemma StepLinear32(a: bv32, b: bv32)
    ensures Step32(Xor32(a, b)) == Xor32(Step32(a), Step32(b))
  {
    hide Step32;
    LowBit32(a);
    LowBit32(b);
    RoundCases32(a);
    RoundCases32(b);
    RoundCases32(a ^ b);
    ShiftLinear32(a, b);
    XorCases(a >> 1, b >> 1, 0xedb88320);
  }

  lemma {:induction false} StepsLinear32(a: bv32, b: bv32, n: nat)
    ensures Steps32(Xor32(a, b), n) == Xor32(Steps32(a, n), Steps32(b, n))
    decreases n
  {
    hide Step32, Xor32;
    if n > 0 {
      StepLinear32(a, b);
      StepsLinear32(Step32(a), Step32(b), n - 1);
    }
  }

  function Upper(c: bv32): bv32 {
    c & 0xffffff00
  }

  lemma SplitRegister(c: bv32)
    ensures c == Xor32(LowByte(c), Upper(c)) && Down(c) == Down(Upper(c))
  {
  }

  function Half32(c: bv32): bv32 {
    c >> 1
  }

  predicate Even32(c: bv32) {
    c & 1 == 0
  }

  lemma EvenStep(c: bv32)
    requires Even32(c)
    ensures Step32(c) == Half32(c)
  {
  }

  lemma EightHalves(c: bv32)
    ensures Half32(Half32(Half32(Half32(Half32(Half32(Half32(Half32(c)))))))) == Down(c)
  {
  }

  lemma EightEven(c: bv32)
    requires c & 0xff == 0
    ensures Even32(c) && Even32(Half32(c)) && Even32(Half32(Half32(c))) && Even32(Half32(Half32(Half32(c))))
    ensures var d := Half32(Half32(Half32(Half32(c))));
      Even32(d) && Even32(Half32(d)) && Even32(Half32(Half32(d))) && Even32(Half32(Half32(Half32(d))))
  {
  }

  /** With an empty low byte, eight rounds only shift. */
  lemma EightShifts(c: bv32)
    requires c & 0xff == 0
    ensures Steps32(c, 8) == Down(c)
  {
    hide Step32, Half32, Even32, Down;
    EightEven(c);
    EightHalves(c);
    var d := Half32(Half32(Half32(Half32(c))));
    EvenStep(c);
    EvenStep(Half32(c));
    EvenStep(Half32(Half32(c)));
    EvenStep(Half32(Half32(Half32(c))));
    EvenStep(d);
    EvenStep(Half32(d));
    EvenStep(Half32(Half32(d)));
    EvenStep(Half32(Half32(Half32(d))));
  }

  lemma UpperShifts(c: bv32)
    ensures Steps32(Upper(c), 8) == Down(c)
  {
    hide Steps32;
    EightShifts(Upper(c));
  }

  lemma ByteStaysLow(c: bv32, b: bv8)
    ensures Down(Xor32(c, b as bv32)) == Down(c)
  {
  }

  lemma SameByte(c: bv32, b: bv8)
    ensures RfcByte(c, b) == Steps32(Xor32(c, b as bv32), 8)
  {
    hide Steps32, RfcTable, Upper, LowByte, Down, Xor32;
    var x := Xor32(c, b as bv32);
    SplitRegister(x);
    SameTable(LowByte(x), 8);
    StepsLinear32(LowByte(x), Upper(x), 8);
    UpperShifts(x);
    ByteStaysLow(c, b);
  }

  /** The bit loop computes what the table does, from every accumulator and for every message. */
  lemma {:induction false} MatchesTable(acc: bv32, bytes: seq<bv8>)
    ensures Fold32(acc, bytes) == RfcUpdate(acc, bytes)
    decreases |bytes|
  {
    hide RfcByte, Steps32, Xor32;
    if bytes != [] {
      MatchesTable(acc, bytes[..|bytes| - 1]);
      SameByte(Fold32(acc, bytes[..|bytes| - 1]), bytes[|bytes| - 1]);
    }
  }

  lemma {:induction false} FoldConcat32(acc: bv32, a: seq<bv8>, b: seq<bv8>)
    ensures Fold32(acc, a + b) == Fold32(Fold32(acc, a), b)
    decreases |b|
  {
    hide Steps32, Xor32;
    if b == [] {
      assert a + b == a;
    } else {
      var n := |b| - 1;
      assert (a + b)[..|a + b| - 1] == a + b[..n];
      FoldConcat32(acc, a, b[..n]);
    }
  }
}
