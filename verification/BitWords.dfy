/** 32-bit words as sets of bit positions, and a set kept in such words. */
module BitWords {
  import opened Bits

  const BITS_PER_ELEMENT: nat := 32

  /** v | (1 << k) */
  function OrBit(v: nat, k: nat): nat {
    if Bit(v, k) then v else v + Pow2(k)
  }

  lemma {:induction false} BitBound(v: nat, k: nat)
    requires Bit(v, k)
    ensures v >= Pow2(k)
    decreases k
  {
    if k > 0 {
      BitBound(v / 2, k - 1);
    }
  }

  /** v & ~(1 << k) */
  function AndNotBit(v: nat, k: nat): nat {
    if Bit(v, k) then
      BitBound(v, k);
      v - Pow2(k)
    else v
  }

  lemma {:induction false} OrBits(v: nat, k: nat, i: nat)
    ensures Bit(OrBit(v, k), i) <==> i == k || Bit(v, i)
    decreases k
  {
    if k > 0 {
      if i > 0 {
        OrBits(v / 2, k - 1, i - 1);
      }
      assert !Bit(v, k) ==> OrBit(v, k) / 2 == OrBit(v / 2, k - 1);
    }
  }

  lemma {:induction false} AndNotBits(v: nat, k: nat, i: nat)
    ensures Bit(AndNotBit(v, k), i) <==> i != k && Bit(v, i)
    decreases k
  {
    if k > 0 {
      if i > 0 {
        AndNotBits(v / 2, k - 1, i - 1);
      }
      assert Bit(v, k) ==> AndNotBit(v, k) / 2 == AndNotBit(v / 2, k - 1);
    }
  }

  lemma {:induction false} OrBound(v: nat, k: nat, n: nat)
    requires v < Pow2(n) && k < n
    ensures OrBit(v, k) < Pow2(n)
    decreases k
  {
    assert Pow2(n) == 2 * Pow2(n - 1);
    if k > 0 {
      Halves(v, Pow2(n - 1));
      OrBound(v / 2, k - 1, n - 1);
      assert OrBit(v, k) / 2 == OrBit(v / 2, k - 1);
      hide OrBit, Pow2;
      Halves(OrBit(v, k), Pow2(n - 1));
    }
  }

  lemma Halves(v: nat, m: nat)
    ensures v / 2 < m <==> v < 2 * m
  {
  }

  /** What the counting loop adds up. */
  function PopCount(v: nat): nat {
    if v == 0 then 0 else v % 2 + PopCount(v / 2)
  }

  /** The positions of the set bits of v among its n low ones, counted from base. */
  ghost function WordBits(v: nat, n: nat, base: nat): (s: set<nat>)
    ensures forall p :: p in s <==> base <= p < base + n && Bit(v, p - base)
  {
    if n == 0 then {} else WordBits(v, n - 1, base) + (if Bit(v, n - 1) then {base + n - 1} else {})
  }

  lemma WordBitsSize(v: nat, n: nat, base: nat)
    ensures |WordBits(v, 0, base)| == 0
    ensures n > 0 ==> |WordBits(v, n, base)| == |WordBits(v, n - 1, base)| + if Bit(v, n - 1) then 1 else 0
  {
  }

  lemma {:induction false} LowBitFirst(v: nat, n: nat, base: nat)
    requires n > 0
    ensures |WordBits(v, n, base)| == v % 2 + |WordBits(v / 2, n - 1, base)|
    decreases n
  {
    hide WordBits;
    WordBitsSize(v, n, base);
    WordBitsSize(v / 2, n - 1, base);
    if n > 1 {
      LowBitFirst(v, n - 1, base);
      assert Bit(v, n - 1) == Bit(v / 2, n - 2);
    }
  }

  lemma {:induction false} CountsBits(v: nat, n: nat, base: nat)
    requires v < Pow2(n)
    ensures |WordBits(v, n, base)| == PopCount(v)
    decreases n
  {
    hide WordBits;
    if n > 0 {
      LowBitFirst(v, n, base);
      CountsBits(v / 2, n - 1, base);
    } else {
      assert WordBits(v, 0, base) == {};
    }
  }

  // ----- a set of positions in an array of words -----

  /** Bit p % 32 of word p / 32 says whether p is in the set. */
  ghost predicate Stores(words: seq<nat>, n: nat, contents: set<nat>) {
    && n <= BITS_PER_ELEMENT * |words|
    && (forall i :: 0 <= i < |words| ==> words[i] < Pow2(BITS_PER_ELEMENT))
    && (forall p :: p in contents ==> p < n)
    && (forall p :: 0 <= p < BITS_PER_ELEMENT * |words| ==> (StoredBit(words, p) <==> p in contents))
  }

  predicate StoredBit(words: seq<nat>, p: nat)
    requires p < BITS_PER_ELEMENT * |words|
  {
    Bit(words[p / BITS_PER_ELEMENT], p % BITS_PER_ELEMENT)
  }

  lemma StoreChange(words: seq<nat>, n: nat, contents: set<nat>, q: nat, val: bool, words': seq<nat>)
    requires Stores(words, n, contents) && q < n
    requires var i, k := q / BITS_PER_ELEMENT, q % BITS_PER_ELEMENT;
      words' == words[i := if val then OrBit(words[i], k) else AndNotBit(words[i], k)]
    ensures Stores(words', n, if val then contents + {q} else contents - {q})
  {
    hide Bit, OrBit, AndNotBit, Pow2;
    var i, k := q / BITS_PER_ELEMENT, q % BITS_PER_ELEMENT;
    InWord(q, i);
    OrBound(words[i], k, BITS_PER_ELEMENT);
    AndNotBound(words[i], k);
    forall p | 0 <= p < BITS_PER_ELEMENT * |words'|
      ensures StoredBit(words', p) <==> if p == q then val else StoredBit(words, p)
    {
      InWord(p, p / BITS_PER_ELEMENT);
      OrBits(words[i], k, p % BITS_PER_ELEMENT);
      AndNotBits(words[i], k, p % BITS_PER_ELEMENT);
    }
  }

  lemma AndNotBound(v: nat, k: nat)
    ensures AndNotBit(v, k) <= v
  {
  }

  lemma InWord(p: nat, i: nat)
    ensures BITS_PER_ELEMENT * i <= p < BITS_PER_ELEMENT * (i + 1) <==> p / BITS_PER_ELEMENT == i
    ensures p / BITS_PER_ELEMENT == i ==> p % BITS_PER_ELEMENT == p - BITS_PER_ELEMENT * i
  {
  }

  ghost function Within(contents: set<nat>, n: nat): set<nat> {
    set p | p in contents && p < n
  }

  lemma CountWord(words: seq<nat>, n: nat, contents: set<nat>, i: nat)
    requires Stores(words, n, contents) && i < |words|
    ensures |Within(contents, BITS_PER_ELEMENT * (i + 1))|
      == |Within(contents, BITS_PER_ELEMENT * i)| + PopCount(words[i])
  {
    hide Bit, Pow2;
    var bits := WordBits(words[i], BITS_PER_ELEMENT, BITS_PER_ELEMENT * i);
    forall p | BITS_PER_ELEMENT * i <= p < BITS_PER_ELEMENT * (i + 1) ensures p in contents <==> p in bits {
      InWord(p, i);
      assert StoredBit(words, p) <==> Bit(words[i], p - BITS_PER_ELEMENT * i);
    }
    CountsBits(words[i], BITS_PER_ELEMENT, BITS_PER_ELEMENT * i);
    hide PopCount, Stores, WordBits;
    var before := Within(contents, BITS_PER_ELEMENT * i);
    assert before !! bits && Within(contents, BITS_PER_ELEMENT * (i + 1)) == before + bits;
  }

  class AtomicBitset {
    const n: nat
    const data: array<nat>
    ghost var contents: set<nat>

    ghost predicate Valid()
      reads this, data
    {
      Stores(data[..], n, contents)
    }

    constructor (n: nat)
      ensures Valid() && contents == {} && this.n == n && fresh(data) && data.Length == (n + 31) / 32
    {
      var size := if n % BITS_PER_ELEMENT == 0 then n / BITS_PER_ELEMENT else n / BITS_PER_ELEMENT + 1;
      var words := new nat[size](_ => 0);
      NoBits(words[..], n);
      this.n, data, contents := n, words, {};
    }

    method Count() returns (total: nat)
      requires Valid()
      ensures total == |contents|
    {
      hide Stores, PopCount, Pow2;
      total := 0;
      assert Within(contents, 0) == {};
      for i := 0 to data.Length
        invariant total == |Within(contents, BITS_PER_ELEMENT * i)|
      {
        CountWord(data[..], n, contents, i);
        var ones := CountOnes(data[i]);
        total := total + ones;
      }
      AllWithin(data[..], n, contents);
    }

    /** operator[] */
    method Get(position: nat) returns (r: bool)
      requires Valid() && position < n
      ensures r <==> position in contents
    {
      r := StoredBit(data[..], position);
    }

    method Set(pos: nat, val: bool)
      requires Valid() && pos < n
      modifies `contents, data
      ensures Valid() && contents == if val then old(contents) + {pos} else old(contents) - {pos}
    {
      ghost var was := data[..];
      var i, k := pos / BITS_PER_ELEMENT, pos % BITS_PER_ELEMENT;
      assert i < data.Length;
      StoreChange(was, n, contents, pos, val, was[i := if val then OrBit(was[i], k) else AndNotBit(was[i], k)]);
      hide Stores, OrBit, AndNotBit;
      if val {
        data[i] := OrBit(data[i], k);
      } else {
        data[i] := AndNotBit(data[i], k);
      }
      assert data[..] == was[i := if val then OrBit(was[i], k) else AndNotBit(was[i], k)];
      contents := if val then contents + {pos} else contents - {pos};
    }
  }

  method CountOnes(word: nat) returns (ones: nat)
    ensures ones == PopCount(word)
  {
    var y := word;
    ones := 0;
    while y != 0
      invariant ones + PopCount(y) == PopCount(word)
    {
      ones, y := ones + y % 2, y / 2;
    }
  }

  lemma {:induction false} ZeroBit(i: nat)
    ensures !Bit(0, i)
    decreases i
  {
    if i > 0 {
      ZeroBit(i - 1);
    }
  }

  lemma NoBits(words: seq<nat>, n: nat)
    requires n <= BITS_PER_ELEMENT * |words| && forall i :: 0 <= i < |words| ==> words[i] == 0
    ensures Stores(words, n, {})
  {
    forall p | 0 <= p < BITS_PER_ELEMENT * |words| ensures !StoredBit(words, p) {
      ZeroBit(p % BITS_PER_ELEMENT);
    }
  }

  lemma AllWithin(words: seq<nat>, n: nat, contents: set<nat>)
    requires Stores(words, n, contents)
    ensures Within(contents, BITS_PER_ELEMENT * |words|) == contents
  {
  }
}
