/**
 * The heatshrink encoder: a state machine over a sliding buffer, proved to output
 * the block-free greedy parse of everything it was given.
 */
module HeatshrinkEncoder {
  import opened Bits
  import opened Sequences
  import opened HeatshrinkSpec

  const MATCH_NOT_FOUND := 0xFFFF

  datatype State =
    | NotFull | Filled | Search | YieldTagBit | YieldLiteral
    | YieldBrIndex | YieldBrLength | SaveBacklog | FlushBits | Done

  datatype SinkRes = SinkOk | SinkErrorMisuse
  datatype PollRes = PollEmpty | PollMore | PollErrorMisuse
  datatype FinishRes = FinishDone | FinishMore

  /** Positions in the buffer must fit the 16-bit signed entries of the search index. */
  predicate Admissible(w: nat, l: nat) {
    l <= w <= 14
  }

  /** A value stored in a 16-bit signed array element. */
  function ToInt16(x: nat): (y: int)
    ensures -0x8000 <= y < 0x8000 && (x - y) % 0x1_0000 == 0
  {
    var y := x % 0x1_0000;
    if y < 0x8000 then y else y - 0x1_0000
  }

  /** The index entry is lossless for every buffer position, and 0xffff reads as -1. */
  lemma IndexEntries(w: nat, p: nat)
    requires w <= 14 && p < 2 * Pow2(w)
    ensures ToInt16(p) == p && ToInt16(0xffff) == -1
  {
    WindowFits(w);
    hide Pow2;
  }

  // ----- the search index -----

  /** The last position before p that holds v, or -1. */
  function PrevSame(s: seq<Byte>, p: nat, v: Byte): (q: int)
    requires p <= |s|
    ensures -1 <= q < p
  {
    if p == 0 then -1 else if s[p - 1] == v then p - 1 else PrevSame(s, p - 1, v)
  }

  lemma {:induction false} PrevSameIsLast(s: seq<Byte>, p: nat, v: Byte)
    requires p <= |s|
    ensures var q := PrevSame(s, p, v);
      && (q >= 0 ==> s[q] == v)
      && forall i :: q < i < p ==> s[i] != v
  {
    if p > 0 && s[p - 1] != v {
      PrevSameIsLast(s, p - 1, v);
    }
  }

  /** Every entry links its position to the previous occurrence of the same byte. */
  ghost predicate Indexed(s: seq<Byte>, index: seq<int>) {
    && |s| <= |index|
    && forall p :: 0 <= p < |s| ==> index[p] == PrevSame(s, p, s[p])
  }

  lemma IndexEntry(s: seq<Byte>, index: seq<int>, p: nat)
    requires Indexed(s, index) && p < |s|
    ensures p < |index| && index[p] == PrevSame(s, p, s[p])
  {
  }

  /** Match positions fit below MATCH_NOT_FOUND. */
  lemma WindowFits(w: nat)
    requires w <= 14
    ensures Pow2(w) <= 16384
  {
    Pow2Monotone(w, 14);
    assert Pow2(14) == 16384;
  }

  /** last holds, for each byte value, its last position before i, or 0xffff. */
  ghost predicate LastSeen(s: seq<Byte>, i: nat, last: seq<nat>)
    requires i <= |s|
  {
    && |last| == 256
    && forall v: Byte :: last[v] == if PrevSame(s, i, v) >= 0 then PrevSame(s, i, v) else 0xffff
  }

  lemma NothingSeen(s: seq<Byte>, last: seq<nat>)
    requires |last| == 256 && forall v :: 0 <= v < 256 ==> last[v] == 0xffff
    ensures LastSeen(s, 0, last)
  {
  }

  lemma LastSeenStep(w: nat, s: seq<Byte>, i: nat, last: seq<nat>)
    requires i < |s| <= 2 * Pow2(w) && w <= 14 && LastSeen(s, i, last)
    ensures LastSeen(s, i + 1, last[s[i] := i])
    ensures ToInt16(last[s[i]]) == PrevSame(s, i, s[i])
  {
    IndexEntries(w, if PrevSame(s, i, s[i]) >= 0 then last[s[i]] else 0);
  }

  /** (len, pos) is the best match among the positions from q up. */
  ghost predicate Searched(s: seq<Byte>, end: nat, cap: nat, q: nat, len: nat, pos: nat)
    requires q <= end && end + cap <= |s|
  {
    var m := Scan(s, q, end, cap);
    len == m.len && (len > 0 ==> pos == m.pos)
  }

  lemma SearchedNothing(s: seq<Byte>, end: nat, cap: nat, pos: nat)
    requires end + cap <= |s|
    ensures Searched(s, end, cap, end, 0, pos)
  {
  }

  lemma SearchedMeans(s: seq<Byte>, start: nat, end: nat, cap: nat, len: nat, pos: nat)
    requires start <= end && end + cap <= |s| && Searched(s, end, cap, start, len, pos)
    ensures var m := Scan(s, start, end, cap); len == m.len && (len > 0 ==> pos == m.pos)
  {
    hide Scan;
  }

  /** Following one link skips nothing, and the linked position starts like the needle. */
  lemma SearchedOne(s: seq<Byte>, end: nat, cap: nat, q: nat, len: nat, pos: nat)
    requires q <= end && 1 <= cap && end + cap <= |s| && Searched(s, end, cap, q, len, pos)
    requires PrevSame(s, q, s[end]) >= 0
    ensures var p := PrevSame(s, q, s[end]); var c := CommonPrefix(s, p, end, cap);
      && s[p] == s[end]
      && if c > len then Searched(s, end, cap, p, c, p) else Searched(s, end, cap, p, len, pos)
  {
    var p := PrevSame(s, q, s[end]);
    PrevSameIsLast(s, q, s[end]);
    SkipMismatches(s, p + 1, q, end, cap);
    hide PrevSame, CommonPrefix;
  }

  /** At the end of the chain, or with a match of full length, the window is exhausted. */
  lemma SearchedAll(s: seq<Byte>, start: nat, end: nat, cap: nat, q: nat, len: nat, pos: nat)
    requires start <= q <= end && 1 <= cap && end + cap <= |s| && Searched(s, end, cap, q, len, pos)
    requires PrevSame(s, q, s[end]) < start || len == cap
    ensures Searched(s, end, cap, start, len, pos)
  {
    if len == cap {
      ScanFull(s, start, q, end, cap);
    } else {
      PrevSameIsLast(s, q, s[end]);
      SkipMismatches(s, start, q, end, cap);
    }
  }

  /** Positions that do not start like the needle match nothing. */
  lemma SkipMismatches(s: seq<Byte>, lo: nat, hi: nat, end: nat, cap: nat)
    requires lo <= hi <= end && 1 <= cap && end + cap <= |s|
    requires forall p :: lo <= p < hi ==> s[p] != s[end]
    ensures Scan(s, lo, end, cap) == Scan(s, hi, end, cap)
  {
    ScanSkips(s, lo, hi, end, cap);
  }

  lemma SubslicesAgree(s: seq<Byte>, p: nat, q: nat, k: nat, n: nat)
    requires p + k <= |s| && q + k <= |s| && n <= k && s[p..p + k] == s[q..q + k]
    ensures s[p..p + n] == s[q..q + n]
  {
    assert s[p..p + n] == s[p..p + k][..n];
    assert s[q..q + n] == s[q..q + k][..n];
  }

  lemma {:induction false} CommonPrefixAgrees(s: seq<Byte>, p: nat, q: nat, cap: nat, i: nat)
    requires p + cap <= |s| && q + cap <= |s| && i < CommonPrefix(s, p, q, cap)
    ensures s[p + i] == s[q + i]
    decreases cap
  {
    if i > 0 {
      CommonPrefixAgrees(s, p + 1, q + 1, cap - 1, i - 1);
    }
  }

  /** A position that disagrees right after the best length cannot beat it. */
  lemma Pruned(s: seq<Byte>, p: nat, end: nat, cap: nat, best: nat)
    requires p < end && end + cap <= |s| && end + best < |s|
    requires s[p + best] != s[end + best]
    ensures CommonPrefix(s, p, end, cap) <= best
  {
    if best < CommonPrefix(s, p, end, cap) {
      CommonPrefixAgrees(s, p, end, cap, best);
    }
  }

  /** Nothing beats a match of the greatest length allowed. */
  lemma ScanFull(s: seq<Byte>, lo: nat, hi: nat, end: nat, cap: nat)
    requires lo <= hi <= end && end + cap <= |s| && Scan(s, hi, end, cap).len == cap
    ensures Scan(s, lo, end, cap) == Scan(s, hi, end, cap)
  {
    ScanSkips(s, lo, hi, end, cap);
  }

  // ----- the bit accumulator -----

  /** cur | mask for a power of two mask. */
  function SetBit(cur: nat, mask: nat): nat
    requires mask > 0
  {
    if (cur / mask) % 2 == 1 then cur else cur + mask
  }

  /** cur holds the bits of partial from the top down, and mask is the next free bit. */
  ghost predicate Accum(partial: seq<bool>, cur: nat, mask: nat) {
    && |partial| < 8
    && mask == Pow2(7 - |partial|)
    && cur == ToNat(partial) * (2 * mask)
  }

  lemma AccumPush(partial: seq<bool>, cur: nat, mask: nat, b: bool)
    requires Accum(partial, cur, mask)
    ensures var p', cur' := partial + [b], if b then SetBit(cur, mask) else cur;
      && (|p'| < 8 ==> Accum(p', cur', mask / 2) && mask / 2 > 0)
      && (|p'| == 8 ==> mask / 2 == 0 && cur' == ToNat(p'))
  {
    hide ToNat;
    var t, k := ToNat(partial), |partial|;
    ToNatSnoc(partial, b);
    SetBitAdds(t, cur, mask, b);
    if k < 7 {
      assert 7 - k == (6 - k) + 1 && mask == 2 * Pow2(6 - k);
      assert mask / 2 == Pow2(6 - k);
    }
  }

  /** The next bit of the accumulator is still clear. */
  lemma SetBitAdds(t: nat, cur: nat, mask: nat, b: bool)
    requires mask > 0 && cur == t * (2 * mask)
    ensures (if b then SetBit(cur, mask) else cur) == (2 * t + if b then 1 else 0) * mask
  {
    assert cur == (2 * t) * mask;
    Cancel(2 * t, mask);
    assert (2 * t + 1) * mask == cur + mask;
  }

  lemma AccumFacts(partial: seq<bool>, cur: nat, mask: nat)
    requires Accum(partial, cur, mask)
    ensures |partial| < 8 && mask > 0
  {
  }

  /** A full accumulator is a byte, and the empty one is ready for the next. */
  lemma AccumFull(partial: seq<bool>, cur: nat)
    requires |partial| == 8 && cur == ToNat(partial)
    ensures cur < 256 && NatBits(8, cur) == partial
    ensures Accum([], 0, 0x80)
  {
    ToNatBound(partial);
    NatBitsOfToNat(partial);
    assert Pow2(8) == 256 && Pow2(7) == 0x80;
  }

  lemma Cancel(t: nat, mask: nat)
    requires mask > 0
    ensures (t * mask) / mask == t
  {
    var q, r := (t * mask) / mask, (t * mask) % mask;
    assert q * mask + r == t * mask;
    if q < t {
      MulMonotone(q + 1, t, mask);
    } else if q > t {
      MulMonotone(t + 1, q, mask);
    }
  }

  lemma MulMonotone(a: nat, b: nat, m: nat)
    requires a <= b
    ensures a * m <= b * m
  {
  }

  // ----- the sliding window -----

  /** The buffer is the part of the zero-padded stream that starts at offset base. */
  ghost predicate Window(w: nat, buffer: seq<Byte>, inputSize: nat, base: nat, stream: seq<Byte>) {
    && |buffer| == 2 * Pow2(w)
    && inputSize <= Pow2(w)
    && |stream| == base + inputSize
    && buffer[..Pow2(w) + inputSize] == Padded(w, stream)[base..]
  }

  lemma WindowSizes(w: nat, buffer: seq<Byte>, inputSize: nat, base: nat, stream: seq<Byte>)
    requires Window(w, buffer, inputSize, base, stream)
    ensures inputSize <= Pow2(w) && |stream| == base + inputSize
  {
  }

  lemma WindowSink(w: nat, old_: seq<Byte>, new_: seq<Byte>, inputSize: nat, base: nat, stream: seq<Byte>,
                   more: seq<Byte>)
    requires Window(w, old_, inputSize, base, stream)
    requires inputSize + |more| <= Pow2(w) && |new_| == |old_|
    requires var k := Pow2(w) + inputSize;
      new_[..k] == old_[..k] && new_[k..k + |more|] == more
    ensures Window(w, new_, inputSize + |more|, base, stream + more)
  {
    var k := Pow2(w) + inputSize;
    assert new_[..k + |more|] == new_[..k] + new_[k..k + |more|];
    assert Padded(w, stream + more) == Padded(w, stream) + more;
    assert (Padded(w, stream) + more)[base..] == Padded(w, stream)[base..] + more;
  }

  lemma WindowShift(w: nat, old_: seq<Byte>, new_: seq<Byte>, msi: nat, base: nat, stream: seq<Byte>)
    requires Window(w, old_, Pow2(w), base, stream)
    requires msi <= Pow2(w) && |new_| == |old_|
    requires var k := 2 * Pow2(w) - msi; new_[..k] == old_[msi..msi + k]
    ensures Window(w, new_, Pow2(w) - msi, base + msi, stream)
  {
    assert old_[..2 * Pow2(w)] == old_;
    assert Padded(w, stream)[base..][msi..] == Padded(w, stream)[base + msi..];
  }

  /** The search over the buffer is the search over the whole stream. */
  lemma WindowScan(w: nat, buffer: seq<Byte>, inputSize: nat, base: nat, stream: seq<Byte>, lo: nat, end: nat, cap: nat)
    requires Window(w, buffer, inputSize, base, stream)
    requires lo <= end && end + cap <= Pow2(w) + inputSize
    ensures var m := Scan(buffer[..Pow2(w) + inputSize], lo, end, cap);
      var m' := Scan(Padded(w, stream), base + lo, base + end, cap);
      m'.pos == base + m.pos && m'.len == m.len
  {
    var s, t := buffer[..Pow2(w) + inputSize], Padded(w, stream);
    assert s == t[base..base + |s|];
    ScanLocal(s, t, base, lo, end, cap);
  }

  lemma WindowBest(w: nat, l: nat, buffer: seq<Byte>, inputSize: nat, base: nat, stream: seq<Byte>, msi: nat,
                   maxlen: nat)
    requires Window(w, buffer, inputSize, base, stream)
    requires msi < inputSize && maxlen == Min(Pow2(l), inputSize - msi)
    ensures var m := Scan(buffer[..Pow2(w) + inputSize], msi, Pow2(w) + msi, Cap(maxlen));
      Best(w, l, stream, base + msi) == Match(base + m.pos, m.len)
  {
    hide Scan, Padded;
    WindowSizes(w, buffer, inputSize, base, stream);
    WindowScan(w, buffer, inputSize, base, stream, msi, Pow2(w) + msi, Cap(maxlen));
    assert base + (Pow2(w) + msi) == (base + msi) + Pow2(w);
    assert |stream| - (base + msi) == inputSize - msi;
  }

  lemma WindowByte(w: nat, buffer: seq<Byte>, inputSize: nat, base: nat, stream: seq<Byte>, i: nat)
    requires Window(w, buffer, inputSize, base, stream) && i < inputSize
    ensures buffer[Pow2(w) + i] == stream[base + i]
  {
    assert buffer[..Pow2(w) + inputSize][Pow2(w) + i] == Padded(w, stream)[base..][Pow2(w) + i];
  }

  /** The output buffer of one poll. */
  class OutputInfo {
    const buf: array<Byte>
    var outputSize: nat

    constructor (buf: array<Byte>)
      ensures this.buf == buf && outputSize == 0
    {
      this.buf := buf;
      outputSize := 0;
    }

    predicate CanTakeByte()
      reads this
    {
      outputSize < buf.Length
    }
  }

  /** Completing the next greedy token extends the parse. */
  lemma TokenDone(w: nat, l: nat, data: seq<Byte>, complete: bool, ts: Tokens)
    requires Parse(w, l, data, complete, ts) && ValidTokens(w, l, ts)
    requires var pos := TotalLen(ts); pos < |data| && (complete || pos + Pow2(l) <= |data|)
    ensures var t := Step(w, l, data, TotalLen(ts)); var ts' := Snoc(ts, t);
      && ValidToken(w, l, t) && ValidTokens(w, l, ts') && Parse(w, l, data, complete, ts')
      && TotalLen(ts') == TotalLen(ts) + TokenLen(t) <= |data| && TokenLen(t) > 0
      && StreamBits(w, l, ts') == StreamBits(w, l, ts) + TokenBits(w, l, t)
  {
    hide Step;
  }

  lemma LiteralBits(w: nat, l: nat, bits: seq<bool>, c: Byte)
    ensures bits + TokenBits(w, l, Literal(c)) == bits + [true] + NatBits(8, c)
  {
  }

  predicate FieldsOk(w: nat, l: nat, st: State, matchPos: nat, matchLength: nat, left: nat) {
    && (st.YieldBrIndex? || st.YieldBrLength? ==> 1 <= matchPos && 1 <= matchLength)
    && (st.YieldBrIndex? ==> left <= w)
    && (st.YieldBrLength? ==> left <= l)
  }

  /** The bits already output of the token under way, with left bits of its current field to go. */
  ghost function SoFar(w: nat, l: nat, st: State, matchPos: nat, matchLength: nat, left: nat): seq<bool>
    requires FieldsOk(w, l, st, matchPos, matchLength, left)
  {
    match st
    case YieldLiteral => [true]
    case YieldBrIndex => [false] + NatBits(w, matchPos - 1)[..w - left]
    case YieldBrLength => [false] + NatBits(w, matchPos - 1) + NatBits(l, matchLength - 1)[..l - left]
    case _ => []
  }

  lemma SoFarAdvances(w: nat, l: nat, st: State, matchPos: nat, matchLength: nat, left: nat, c: nat, done: seq<bool>)
    requires st.YieldBrIndex? || st.YieldBrLength?
    requires FieldsOk(w, l, st, matchPos, matchLength, left) && c <= left
    ensures var v := (if st.YieldBrIndex? then matchPos else matchLength) - 1;
      done + SoFar(w, l, st, matchPos, matchLength, left) + NatBits(c, Shr(v, left - c))
      == done + SoFar(w, l, st, matchPos, matchLength, left - c)
  {
    hide NatBits, Shr;
    if st.YieldBrIndex? {
      FieldAdvance(done, [false], w, matchPos - 1, left, c);
    } else {
      FieldAdvance(done, [false] + NatBits(w, matchPos - 1), l, matchLength - 1, left, c);
    }
  }

  lemma SoFarNone(w: nat, l: nat, st: State, matchPos: nat, matchLength: nat, left: nat)
    requires !st.YieldLiteral? && !st.YieldBrIndex? && !st.YieldBrLength?
    ensures SoFar(w, l, st, matchPos, matchLength, left) == []
  {
  }

  lemma SoFarTag(w: nat, l: nat, matchPos: nat, matchLength: nat, left: nat)
    ensures SoFar(w, l, YieldTagBit, matchPos, matchLength, left) == []
    ensures SoFar(w, l, YieldLiteral, matchPos, matchLength, left) == [true]
  {
  }

  lemma SoFarEnds(w: nat, l: nat, matchPos: nat, matchLength: nat)
    requires matchPos >= 1 && matchLength >= 1
    ensures SoFar(w, l, YieldBrIndex, matchPos, matchLength, w) == [false]
    ensures SoFar(w, l, YieldBrIndex, matchPos, matchLength, 0) == SoFar(w, l, YieldBrLength, matchPos, matchLength, l)
    ensures ValidToken(w, l, BackRef(matchPos, matchLength)) ==>
      SoFar(w, l, YieldBrLength, matchPos, matchLength, 0) == TokenBits(w, l, BackRef(matchPos, matchLength))
  {
    hide NatBits;
  }

  /** Sending c more of the last o bits of a field. */
  lemma FieldAdvance(done: seq<bool>, head: seq<bool>, n: nat, v: nat, o: nat, c: nat)
    requires c <= o <= n
    ensures done + (head + NatBits(n, v)[..n - o]) + NatBits(c, Shr(v, o - c))
         == done + (head + NatBits(n, v)[..n - (o - c)])
  {
    NatBitsAdvance(n, v, o, c);
    hide NatBits, Shr;
    Reassociate(done, head, NatBits(n, v)[..n - o], NatBits(c, Shr(v, o - c)));
  }

  lemma Reassociate(a: seq<bool>, b: seq<bool>, c: seq<bool>, d: seq<bool>)
    ensures a + (b + c) + d == a + (b + (c + d))
  {
  }

  /** The unfinished byte is the pending bits followed by zeros. */
  lemma FlushByte(partial: seq<bool>, cur: nat, mask: nat)
    requires Accum(partial, cur, mask)
    ensures mask == 0x80 <==> partial == []
    ensures cur < 256 && NatBits(8, cur) == partial + Zeros(8 - |partial|)
  {
    var k := |partial|;
    Pow2Monotone(7 - k, 7);
    if k > 0 {
      Pow2Monotone(7 - k, 6);
    }
    assert Pow2(7) == 0x80 && Pow2(6) == 0x40 && Pow2(8) == 256;
    assert Pow2(8 - k) == 2 * mask;
    ToNatZeros(partial, 8 - k);
    ToNatBound(partial + Zeros(8 - k));
    NatBitsOfToNat(partial + Zeros(8 - k));
  }

  lemma FillSplit(whole: seq<bool>, partial: seq<bool>)
    requires |whole| % 8 == 0 && |partial| < 8
    ensures Fill(whole + partial) == if partial == [] then whole else whole + (partial + Zeros(8 - |partial|))
  {
  }

  /** When the tokens cover the data and the output is their padded bits, it is the specified encoding. */
  lemma OutputIsSpec(w: nat, l: nat, data: seq<Byte>, ts: Tokens, emitted: seq<Byte>)
    requires Parse(w, l, data, true, ts) && ValidTokens(w, l, ts) && TotalLen(ts) == |data|
    requires Unpack(emitted) == Fill(StreamBits(w, l, ts))
    ensures emitted == SpecEncode(w, l, data)
  {
    ParseIsGreedy(w, l, data, ts);
    hide Unpack, StreamBits, Parse, TotalLen, Pack;
    assert ts == Greedy(w, l, data);
    UnpackPack(Fill(StreamBits(w, l, ts)));
    UnpackInjective(emitted, SpecEncode(w, l, data));
  }

  lemma FlushedIsSpec(w: nat, l: nat, data: seq<Byte>, ts: Tokens, emitted: seq<Byte>, partial: seq<bool>, cur: nat,
                      mask: nat)
    requires Parse(w, l, data, true, ts) && ValidTokens(w, l, ts) && TotalLen(ts) == |data|
    requires Accum(partial, cur, mask) && Unpack(emitted) + partial == StreamBits(w, l, ts)
    ensures cur < 256
    ensures (if mask == 0x80 then emitted else emitted + [cur]) == SpecEncode(w, l, data)
  {
    hide Parse, TotalLen, ValidTokens, StreamBits, SpecEncode, Unpack, NatBits;
    FlushByte(partial, cur, mask);
    AccumFacts(partial, cur, mask);
    hide Accum;
    FillSplit(Unpack(emitted), partial);
    UnpackSnoc(emitted, cur);
    OutputIsSpec(w, l, data, ts, if mask == 0x80 then emitted else emitted + [cur]);
  }

  /** Never more than nine output bits for each input byte, with a token under way. */
  lemma BitsBound(w: nat, l: nat, data: seq<Byte>, complete: bool, ts: Tokens)
    requires Parse(w, l, data, complete, ts) && ValidTokens(w, l, ts) && TotalLen(ts) <= |data|
    ensures |StreamBits(w, l, ts)| <= 9 * |data|
    ensures TotalLen(ts) < |data| ==>
      |StreamBits(w, l, ts)| + |TokenBits(w, l, Step(w, l, data, TotalLen(ts)))| <= 9 * |data|
  {
    ParseCost(w, l, data, complete, ts);
    if TotalLen(ts) < |data| {
      StepCost(w, l, data, TotalLen(ts));
    }
    hide *;
  }

  lemma TagBits()
    ensures NatBits(1, 1) == [true] && NatBits(1, 0) == [false]
  {
    assert NatBits(0, 0) == [];
  }

  class Encoder {
    const windowSize: nat
    const lookaheadSize: nat
    const buffer: array<Byte>
    const searchIndex: array<int>

    var inputSize: nat
    var matchScanIndex: nat
    var matchLength: nat
    var matchPos: nat
    var outgoingBits: nat
    var outgoingBitsCount: nat
    var finishing: bool
    var state: State
    var currentByte: nat
    var bitIndex: nat

    ghost var stream: seq<Byte>   // everything sunk so far
    ghost var base: nat           // stream offset of the current block
    ghost var tokens: Tokens      // the tokens completely output
    ghost var emitted: seq<Byte>  // the bytes output over all polls
    ghost var partial: seq<bool>  // the bits in currentByte

    // ----- what the fields mean -----

    ghost predicate Shape() {
      && Admissible(windowSize, lookaheadSize)
      && buffer.Length == 2 * Pow2(windowSize)
      && searchIndex.Length == 2 * Pow2(windowSize)
      && (buffer as object) != (searchIndex as object)
    }

    /** The part of the buffer that holds history and input. */
    ghost function Contents(): seq<Byte>
      requires Shape() && inputSize <= Pow2(windowSize)
      reads `inputSize, buffer
    {
      buffer[..Pow2(windowSize) + inputSize]
    }

    /** The number of stream bytes that the completed tokens cover, as the scan index tells it. */
    ghost function Committed(st: State): int
      reads `base, `matchScanIndex, `matchLength
    {
      base + matchScanIndex - (if st.YieldLiteral? || (st.YieldTagBit? && matchLength == 0) then 1 else 0)
    }

    /** All bits output so far. */
    ghost function Bits(): seq<bool>
      reads `emitted, `partial
    {
      Unpack(emitted) + partial
    }

    /** A block is complete and indexed. */
    ghost predicate Scanning()
      requires Shape() && inputSize <= Pow2(windowSize)
      reads `inputSize, `matchScanIndex, `finishing, buffer, searchIndex
    {
      && matchScanIndex <= inputSize
      && (finishing || inputSize == Pow2(windowSize))
      && Indexed(Contents(), searchIndex[..])
    }

    /** matchLength and matchPos describe the greedy token at the current position. */
    ghost predicate Chosen(st: State)
      reads `base, `matchScanIndex, `matchLength, `matchPos, `finishing, `stream
    {
      var w, l, pos := windowSize, lookaheadSize, Committed(st);
      && 0 <= pos < |stream|
      && (finishing || pos + Pow2(l) <= |stream|)
      && Step(w, l, stream, pos) == if matchLength == 0 then Literal(stream[pos]) else BackRef(matchPos, matchLength)
    }

    ghost predicate InState(st: State)
      requires Shape() && inputSize <= Pow2(windowSize)
      reads `inputSize, `matchScanIndex, `matchLength, `matchPos, `outgoingBits, `outgoingBitsCount
      reads `finishing, `stream, `base, buffer, searchIndex
    {
      match st
      case NotFull => matchScanIndex == 0 && inputSize < Pow2(windowSize) && !finishing
      case Filled => matchScanIndex == 0 && (finishing || inputSize == Pow2(windowSize))
      case Search => Scanning()
      case YieldTagBit => Scanning() && Chosen(st) && (matchLength == 0 ==> matchScanIndex > 0)
      case YieldLiteral => Scanning() && Chosen(st) && matchLength == 0 && matchScanIndex > 0
      case YieldBrIndex =>
        Scanning() && Chosen(st) && matchLength > 0
        && outgoingBits == matchPos - 1 && outgoingBitsCount <= windowSize
      case YieldBrLength =>
        Scanning() && Chosen(st) && matchLength > 0
        && outgoingBits == matchLength - 1 && outgoingBitsCount <= lookaheadSize
      case SaveBacklog => !finishing && inputSize == Pow2(windowSize) && 1 <= matchScanIndex <= inputSize
      case FlushBits => finishing && matchScanIndex == inputSize
      case Done => finishing && matchScanIndex == inputSize
    }

    /** The output is the bit stream of the tokens, and at the end the padded byte stream. */
    ghost predicate Coded(st: State)
      requires ValidTokens(windowSize, lookaheadSize, tokens)
      requires FieldsOk(windowSize, lookaheadSize, st, matchPos, matchLength, outgoingBitsCount)
      reads `matchPos, `matchLength, `outgoingBitsCount, `currentByte, `bitIndex
      reads `stream, `tokens, `emitted, `partial
    {
      var w, l := windowSize, lookaheadSize;
      if st.Done? then emitted == SpecEncode(w, l, stream)
      else
        && Accum(partial, currentByte, bitIndex)
        && Bits() == StreamBits(w, l, tokens) + SoFar(w, l, st, matchPos, matchLength, outgoingBitsCount)
    }

    ghost predicate ValidIn(st: State)
      reads `inputSize, `matchScanIndex, `matchLength, `matchPos, `outgoingBits, `outgoingBitsCount
      reads `finishing, `currentByte, `bitIndex, `stream, `base, `tokens, `emitted, `partial
      reads buffer, searchIndex
    {
      var w, l := windowSize, lookaheadSize;
      && Shape()
      && Window(w, buffer[..], inputSize, base, stream)
      && Parse(w, l, stream, finishing, tokens)
      && ValidTokens(w, l, tokens)
      && TotalLen(tokens) == Committed(st)
      && InState(st)
      && Coded(st)
    }

    ghost predicate Valid()
      reads this, buffer, searchIndex
    {
      ValidIn(state)
    }

    /** Between calls the encoder waits for input, is about to be polled, or is done. */
    predicate Idle()
      reads this
    {
      state.NotFull? || state.Filled? || state.Done?
    }

    constructor (windowSize: nat, lookaheadSize: nat)
      requires Admissible(windowSize, lookaheadSize)
      ensures Valid() && state == NotFull
      ensures this.windowSize == windowSize && this.lookaheadSize == lookaheadSize
      ensures stream == [] && emitted == [] && !finishing
      ensures fresh(buffer) && fresh(searchIndex)
    {
      this.windowSize := windowSize;
      this.lookaheadSize := lookaheadSize;
      buffer := new Byte[2 * Pow2(windowSize)](i => 0);
      searchIndex := new int[2 * Pow2(windowSize)](i => 0);
      inputSize, matchScanIndex, matchLength, matchPos := 0, 0, 0, 0;
      outgoingBits, outgoingBitsCount := 0, 0;
      finishing := false;
      state := NotFull;
      currentByte, bitIndex := 0, 0x80;
      stream, base, tokens, emitted, partial := [], 0, Nil, [], [];
      new;
      assert Pow2(7) == 0x80;
      assert buffer[..Pow2(windowSize)] == Padded(windowSize, []);
    }

    // ----- output -----

    /** The bytes of this poll follow those output before it. */
    ghost predicate Delivered(oi: OutputInfo, before: seq<Byte>)
      reads `emitted, oi`outputSize, oi.buf
    {
      && oi.outputSize <= oi.buf.Length
      && emitted == before + oi.buf[..oi.outputSize]
    }

    ghost predicate Separate(oi: OutputInfo) {
      (oi.buf as object) != (buffer as object) && (oi.buf as object) != (searchIndex as object)
    }

    method PutByte(b: Byte, oi: OutputInfo, ghost before: seq<Byte>)
      requires oi.CanTakeByte() && Delivered(oi, before)
      modifies `emitted, oi`outputSize, oi.buf
      ensures Delivered(oi, before)
      ensures emitted == old(emitted) + [b] && oi.outputSize == old(oi.outputSize) + 1
      ensures Unpack(emitted) == old(Unpack(emitted)) + NatBits(8, b)
    {
      UnpackSnoc(emitted, b);
      oi.buf[oi.outputSize] := b;
      emitted := emitted + [b];
      oi.outputSize := oi.outputSize + 1;
    }

    /** The body of the loop below: one more bit in the accumulator, and a full byte goes out. */
    method PushBit(cur: nat, mask: nat, b: bool, oi: OutputInfo, ghost before: seq<Byte>)
      returns (cur': nat, mask': nat)
      requires Accum(partial, cur, mask) && mask > 0 && Delivered(oi, before)
      requires |partial| < 7 || oi.CanTakeByte()
      modifies `emitted, `partial, oi`outputSize, oi.buf
      ensures Accum(partial, cur', mask') && Delivered(oi, before)
      ensures Bits() == old(Bits()) + [b]
      ensures 8 * oi.outputSize + |partial| == 8 * old(oi.outputSize) + old(|partial|) + 1
    {
      hide ToNat, Unpack, Accum, Delivered;
      AccumFacts(partial, cur, mask);
      AccumPush(partial, cur, mask, b);
      assert Bits() + [b] == Unpack(emitted) + (partial + [b]);
      cur', mask' := if b then SetBit(cur, mask) else cur, mask / 2;
      partial := partial + [b];
      if mask' == 0 {
        AccumFull(partial, cur');
        PutByte(cur', oi, before);
        cur', mask', partial := 0, 0x80, [];
      }
    }

    method PushBits(count: nat, bits: nat, oi: OutputInfo, ghost before: seq<Byte>)
      requires count <= 8 && oi.CanTakeByte()
      requires Accum(partial, currentByte, bitIndex) && Delivered(oi, before)
      modifies `currentByte, `bitIndex, `emitted, `partial, oi`outputSize, oi.buf
      ensures Accum(partial, currentByte, bitIndex) && Delivered(oi, before)
      ensures Bits() == old(Bits()) + NatBits(count, bits)
    {
      hide Accum, Delivered, Bits;
      ghost var field := NatBits(count, bits);
      var cur, mask := currentByte, bitIndex;
      var i := count;
      assert field[..0] == [];
      AccumFacts(partial, cur, mask);
      while i > 0
        invariant 0 <= i <= count && Accum(partial, cur, mask) && Delivered(oi, before)
        invariant Bits() == old(Bits()) + field[..count - i]
        invariant 8 * oi.outputSize + |partial| == 8 * old(oi.outputSize) + old(|partial|) + (count - i)
      {
        i := i - 1;
        NatBitsAt(count, bits, count - 1 - i);
        hide NatBits, Bit;
        AccumFacts(partial, cur, mask);
        assert field[..count - i] == field[..count - i - 1] + [Bit(bits, i)];
        cur, mask := PushBit(cur, mask, Bit(bits, i), oi, before);
      }
      assert field[..count] == field;
      currentByte, bitIndex := cur, mask;
    }

    // ----- input -----

    method CopyIn(offset: nat, bytes: seq<Byte>)
      requires offset + |bytes| <= buffer.Length
      modifies buffer
      ensures buffer[..offset] == old(buffer[..offset])
      ensures buffer[offset..offset + |bytes|] == bytes
    {
      for i := 0 to |bytes|
        invariant buffer[..offset] == old(buffer[..offset])
        invariant buffer[offset..offset + i] == bytes[..i]
      {
        buffer[offset + i] := bytes[i];
      }
    }

    /** The window shows more of a longer stream. */
    method FillWindow(offset: nat, more: seq<Byte>)
      requires Window(windowSize, buffer[..], inputSize, base, stream)
      requires inputSize + |more| <= Pow2(windowSize) && buffer.Length == 2 * Pow2(windowSize)
      requires offset == Pow2(windowSize) + inputSize
      modifies buffer
      ensures Window(windowSize, buffer[..], inputSize + |more|, base, stream + more)
    {
      hide Window, Pow2;
      ghost var was := buffer[..];
      CopyIn(offset, more);
      WindowSink(windowSize, was, buffer[..], inputSize, base, stream, more);
    }

    method Sink(inBuf: seq<Byte>) returns (res: SinkRes, taken: nat)
      requires Valid() && Idle()
      modifies this, buffer
      ensures Valid() && Idle() && finishing == old(finishing) && emitted == old(emitted)
      ensures res == SinkOk <==> old(!finishing && state == NotFull)
      ensures res == SinkOk ==>
        && taken <= |inBuf| && stream == old(stream) + inBuf[..taken]
        && (|inBuf| > 0 ==> taken > 0)
        && (state == NotFull ==> taken == |inBuf|)
      ensures res == SinkErrorMisuse ==> taken == 0 && stream == old(stream) && state == old(state)
    {
      hide Contents, Scanning, ValidTokens, Window, Parse, TotalLen, StreamBits, Unpack, SpecEncode, Accum;
      hide Indexed, Step;
      if finishing || state != NotFull {
        return SinkErrorMisuse, 0;
      }
      assert inputSize < Pow2(windowSize);
      var size := Pow2(windowSize);
      var writeOffset := size + inputSize;
      var rem := size - inputSize;
      taken := if rem <= |inBuf| then rem else |inBuf|;
      FillWindow(writeOffset, inBuf[..taken]);
      ParseStable(windowSize, lookaheadSize, stream, inBuf[..taken], tokens);
      stream := stream + inBuf[..taken];
      inputSize := inputSize + taken;
      if taken == rem {
        state := Filled;
      }
      res := SinkOk;
    }

    method Finish() returns (res: FinishRes)
      requires Valid() && Idle()
      modifies `finishing, `state
      ensures Valid() && Idle() && finishing
      ensures state == (if old(state) == Done then Done else Filled)
      ensures res == FinishDone <==> state == Done
    {
      if !finishing {
        ParseComplete(windowSize, lookaheadSize, stream, tokens);
      }
      finishing := true;
      if state == NotFull {
        state := Filled;
      }
      res := if state == Done then FinishDone else FinishMore;
    }

    // ----- search -----

    method DoIndexing()
      requires Shape() && inputSize <= Pow2(windowSize)
      modifies searchIndex
      ensures Indexed(Contents(), searchIndex[..])
    {
      hide PrevSame;
      var last := new nat[256](i => 0xffff);
      var end := Pow2(windowSize) + inputSize;
      ghost var s := Contents();
      NothingSeen(s, last[..]);
      for i := 0 to end
        invariant last.Length == 256 && LastSeen(s, i, last[..])
        invariant forall p :: 0 <= p < i ==> searchIndex[p] == PrevSame(s, p, s[p])
      {
        var v := buffer[i];
        assert v == s[i];
        LastSeenStep(windowSize, s, i, last[..]);
        var lv := last[v];
        searchIndex[i] := ToInt16(lv);
        last[v] := i;
      }
      assert Contents() == s;
    }

    /** The inner comparison loop of the search: how far the bytes at pos and needle agree. */
    method CompareAt(pos: nat, needle: nat, maxlen: nat) returns (length: nat)
      requires Shape() && inputSize <= Pow2(windowSize)
      requires pos < needle && 1 <= maxlen && needle + maxlen <= Pow2(windowSize) + inputSize
      requires buffer[pos] == buffer[needle]
      ensures length == CommonPrefix(Contents(), pos, needle, Cap(maxlen))
    {
      hide CommonPrefix;
      ghost var s := Contents();
      length := 1;
      var k := 1;
      assert s[pos..pos + 1] == [s[pos]] && s[needle..needle + 1] == [s[needle]];
      while k < maxlen
        invariant 1 <= k <= maxlen
        invariant length == if k == 1 then 1 else k - 1
        invariant s[pos..pos + k] == s[needle..needle + k]
      {
        length := k;
        if buffer[pos + k] != buffer[needle + k] {
          CommonPrefixIs(s, pos, needle, Cap(maxlen), k);
          return;
        }
        SlicesGrow(s, pos, needle, k);
        k := k + 1;
      }
      SubslicesAgree(s, pos, needle, k, length);
      CommonPrefixIs(s, pos, needle, Cap(maxlen), length);
    }

    /** Walking the index finds what trying every position in the window finds. */
    method FindLongestMatch(start: nat, end: nat, maxlen: nat) returns (pos: nat, len: nat)
      requires Shape() && inputSize <= Pow2(windowSize) && Indexed(Contents(), searchIndex[..])
      requires start <= end && 1 <= maxlen && end + maxlen <= Pow2(windowSize) + inputSize
      requires end - start <= Pow2(windowSize)
      ensures var m := Scan(Contents(), start, end, Cap(maxlen));
        if m.len > Cut(windowSize, lookaheadSize) then pos == end - m.pos && len == m.len && pos < MATCH_NOT_FOUND
        else pos == MATCH_NOT_FOUND && len == 0
    {
      hide Scan, CommonPrefix, PrevSame, Indexed, Searched, Pow2;
      ghost var s, cap := Contents(), Cap(maxlen);
      var matchMaxlen: nat, matchIndex: nat := 0, MATCH_NOT_FOUND;
      IndexEntry(s, searchIndex[..], end);
      var p := searchIndex[end];
      var needleByte := buffer[end];
      ghost var q := end;   // p is the last position before q that starts like the needle
      SearchedNothing(s, end, cap, matchIndex);
      while p >= start
        invariant start <= q <= end && p == PrevSame(s, q, s[end])
        invariant Searched(s, end, cap, q, matchMaxlen, matchIndex)
        invariant matchMaxlen < maxlen && needleByte == s[end + matchMaxlen]
        decreases p
      {
        SearchedOne(s, end, cap, q, matchMaxlen, matchIndex);
        IndexEntry(s, searchIndex[..], p);
        q := p;
        var next := searchIndex[p];
        if buffer[p + matchMaxlen] == needleByte {
          var length := CompareAt(p, end, maxlen);
          if length > matchMaxlen {
            matchMaxlen := length;
            matchIndex := p;
            if length == maxlen {
              // won't find better
              break;
            }
            needleByte := buffer[end + matchMaxlen];
          }
        } else {
          Pruned(s, p, end, cap, matchMaxlen);
        }
        p := next;
      }
      SearchedAll(s, start, end, cap, q, matchMaxlen, matchIndex);
      SearchedMeans(s, start, end, cap, matchMaxlen, matchIndex);
      WindowFits(windowSize);
      var breakEvenPoint := 1 + windowSize + lookaheadSize;
      if matchMaxlen > breakEvenPoint / 8 {
        return end - matchIndex, matchMaxlen;
      }
      return MATCH_NOT_FOUND, 0;
    }

    method StStepSearch() returns (next: State)
      requires Valid() && state == Search
      modifies `matchScanIndex, `matchLength, `matchPos
      ensures ValidIn(next)
      ensures next == YieldTagBit || next == SaveBacklog || next == FlushBits
    {
      hide Contents, Window, Parse, TotalLen, ValidTokens, StreamBits, Unpack, SpecEncode, Accum, Indexed, Step;
      hide NatBits, Pow2;
      var lookaheadSz := Pow2(lookaheadSize);
      Pow2Monotone(lookaheadSize, windowSize);
      WindowSizes(windowSize, buffer[..], inputSize, base, stream);
      if matchScanIndex > inputSize - (if finishing then 1 else lookaheadSz) {
        return if finishing then FlushBits else SaveBacklog;
      }
      var pos, len := MatchHere();
      Choose(pos, len);
      next := YieldTagBit;
    }

    /** Takes the match, or a literal if there is none. */
    method Choose(pos: nat, len: nat)
      requires ValidIn(Search) && matchScanIndex < inputSize
      requires finishing || matchScanIndex + Pow2(lookaheadSize) <= inputSize
      requires Step(windowSize, lookaheadSize, stream, base + matchScanIndex) ==
        if pos == MATCH_NOT_FOUND then Literal(stream[base + matchScanIndex]) else BackRef(pos, len)
      requires pos != MATCH_NOT_FOUND ==> len > 0
      modifies `matchScanIndex, `matchLength, `matchPos
      ensures ValidIn(YieldTagBit)
    {
      hide Contents, Window, Parse, TotalLen, ValidTokens, StreamBits, Unpack, SpecEncode, Accum, Indexed, Step, Pow2;
      WindowSizes(windowSize, buffer[..], inputSize, base, stream);
      if pos == MATCH_NOT_FOUND {
        matchScanIndex := matchScanIndex + 1;
        matchLength := 0;
      } else {
        matchPos := pos;
        matchLength := len;
      }
    }

    /** The match search at the scan position chooses the greedy token of the stream. */
    method MatchHere() returns (pos: nat, len: nat)
      requires Valid() && state == Search && matchScanIndex < inputSize
      ensures Step(windowSize, lookaheadSize, stream, base + matchScanIndex) ==
        if pos == MATCH_NOT_FOUND then Literal(stream[base + matchScanIndex]) else BackRef(pos, len)
      ensures pos != MATCH_NOT_FOUND ==> len > 0
    {
      hide Window, Parse, TotalLen, StreamBits, Unpack, SpecEncode, Accum, Indexed, Scan, Best;
      WindowSizes(windowSize, buffer[..], inputSize, base, stream);
      var windowLength := Pow2(windowSize);
      var lookaheadSz := Pow2(lookaheadSize);
      var msi := matchScanIndex;
      var end := windowLength + msi;
      var start := end - windowLength;
      var maxPossible := if inputSize - msi >= lookaheadSz then lookaheadSz else inputSize - msi;
      pos, len := FindLongestMatch(start, end, maxPossible);
      BestInWindow(msi, maxPossible);
    }

    /** The best match in the buffer is the best match in the stream. */
    lemma BestInWindow(msi: nat, maxlen: nat)
      requires Shape() && Window(windowSize, buffer[..], inputSize, base, stream)
      requires msi < inputSize && maxlen == Min(Pow2(lookaheadSize), inputSize - msi)
      ensures var m := Scan(Contents(), msi, Pow2(windowSize) + msi, Cap(maxlen));
        Best(windowSize, lookaheadSize, stream, base + msi) == Match(base + m.pos, m.len)
    {
      hide Scan, Window, Best, Pow2;
      WindowSizes(windowSize, buffer[..], inputSize, base, stream);
      assert buffer[..][..Pow2(windowSize) + inputSize] == Contents();
      WindowBest(windowSize, lookaheadSize, buffer[..], inputSize, base, stream, msi, maxlen);
    }

    // ----- the output steps -----

    method StYieldTagBit(oi: OutputInfo, ghost before: seq<Byte>) returns (next: State)
      requires Valid() && state == YieldTagBit && Delivered(oi, before) && Separate(oi)
      modifies `currentByte, `bitIndex, `emitted, `partial, `outgoingBits, `outgoingBitsCount, oi`outputSize, oi.buf
      ensures ValidIn(next) && Delivered(oi, before)
      ensures !old(oi.CanTakeByte()) ==> next == YieldTagBit
      ensures old(oi.CanTakeByte()) ==> next == if matchLength == 0 then YieldLiteral else YieldBrIndex
    {
      hide Delivered, ValidIn;
      if !oi.CanTakeByte() {
        return YieldTagBit;
      }
      if matchLength == 0 {
        AddLiteralTag(oi, before);
        next := YieldLiteral;
      } else {
        AddBackRefTag(oi, before);
        next := YieldBrIndex;
      }
    }

    /** The tag says which of the two fields comes next. */
    lemma ChosenAfterTag()
      requires Chosen(YieldTagBit)
      ensures matchLength == 0 ==> Chosen(YieldLiteral) && Committed(YieldLiteral) == Committed(YieldTagBit)
      ensures matchLength > 0 ==>
        matchPos > 0 && Chosen(YieldBrIndex) && Committed(YieldBrIndex) == Committed(YieldTagBit)
    {
    }

    method AddLiteralTag(oi: OutputInfo, ghost before: seq<Byte>)
      requires ValidIn(YieldTagBit) && Delivered(oi, before) && Separate(oi) && oi.CanTakeByte() && matchLength == 0
      modifies `currentByte, `bitIndex, `emitted, `partial, oi`outputSize, oi.buf
      ensures ValidIn(YieldLiteral) && Delivered(oi, before)
    {
      hide Delivered, Scanning, Contents, Window, Parse, TotalLen, ValidTokens, StreamBits, Unpack, SpecEncode, Accum;
      hide Indexed, Step, NatBits, SoFar, Pow2, Chosen, Committed;
      ChosenAfterTag();
      TagBits();
      SoFarTag(windowSize, lookaheadSize, matchPos, matchLength, outgoingBitsCount);
      PushBits(1, 1, oi, before);
    }

    /** The distance comes after the tag. */
    method AddBackRefTag(oi: OutputInfo, ghost before: seq<Byte>)
      requires ValidIn(YieldTagBit) && Delivered(oi, before) && Separate(oi) && oi.CanTakeByte() && matchLength > 0
      modifies `currentByte, `bitIndex, `emitted, `partial, `outgoingBits, `outgoingBitsCount, oi`outputSize, oi.buf
      ensures ValidIn(YieldBrIndex) && Delivered(oi, before)
    {
      hide Delivered, Scanning, Contents, Window, Parse, TotalLen, ValidTokens, StreamBits, Unpack, SpecEncode, Accum;
      hide Indexed, Step, NatBits, SoFar, Pow2, Chosen, Committed;
      TagBits();
      SoFarTag(windowSize, lookaheadSize, matchPos, matchLength, outgoingBitsCount);
      PushBits(1, 0, oi, before);
      StartDistance();
    }

    method StartDistance()
      requires Shape() && Window(windowSize, buffer[..], inputSize, base, stream)
      requires Parse(windowSize, lookaheadSize, stream, finishing, tokens)
      requires ValidTokens(windowSize, lookaheadSize, tokens) && TotalLen(tokens) == Committed(YieldTagBit)
      requires InState(YieldTagBit) && matchLength > 0
      requires Accum(partial, currentByte, bitIndex)
      requires Bits() == StreamBits(windowSize, lookaheadSize, tokens) + [false]
      modifies `outgoingBits, `outgoingBitsCount
      ensures ValidIn(YieldBrIndex)
    {
      hide Scanning, Contents, Window, Parse, TotalLen, ValidTokens, StreamBits, Unpack, SpecEncode, Accum;
      hide Indexed, Step, NatBits, SoFar, Pow2, Chosen, Committed, Bits;
      ChosenAfterTag();
      SoFarEnds(windowSize, lookaheadSize, matchPos, matchLength);
      outgoingBits := matchPos - 1;
      outgoingBitsCount := windowSize;
    }

    method StYieldLiteral(oi: OutputInfo, ghost before: seq<Byte>) returns (next: State)
      requires Valid() && state == YieldLiteral && Delivered(oi, before) && Separate(oi)
      modifies `currentByte, `bitIndex, `emitted, `partial, `tokens, oi`outputSize, oi.buf
      ensures ValidIn(next) && Delivered(oi, before)
      ensures next == if old(oi.CanTakeByte()) then Search else YieldLiteral
      ensures next == Search ==> TotalLen(tokens) > old(TotalLen(tokens))
    {
      hide Delivered, Scanning, Contents, Window, Parse, TotalLen, ValidTokens, StreamBits, TokenBits, Unpack;
      hide SpecEncode, Accum, Indexed, Step, NatBits, Pow2;
      if !oi.CanTakeByte() {
        return YieldLiteral;
      }
      WindowSizes(windowSize, buffer[..], inputSize, base, stream);
      WindowByte(windowSize, buffer[..], inputSize, base, stream, matchScanIndex - 1);
      var c := buffer[Pow2(windowSize) + (matchScanIndex - 1)];
      PushBits(8, c, oi, before);
      LiteralDone(c);
      next := Search;
    }

    /** The literal is output completely. */
    ghost method LiteralDone(c: Byte)
      requires Shape() && Window(windowSize, buffer[..], inputSize, base, stream)
      requires Parse(windowSize, lookaheadSize, stream, finishing, tokens)
      requires ValidTokens(windowSize, lookaheadSize, tokens) && TotalLen(tokens) == Committed(YieldLiteral)
      requires InState(YieldLiteral) && c == stream[base + matchScanIndex - 1]
      requires Accum(partial, currentByte, bitIndex)
      requires Bits() == StreamBits(windowSize, lookaheadSize, tokens) + [true] + NatBits(8, c)
      modifies `tokens
      ensures ValidIn(Search) && TotalLen(tokens) > old(TotalLen(tokens))
    {
      hide Scanning, Contents, Window, Parse, TotalLen, ValidTokens, StreamBits, TokenBits, Unpack, SpecEncode, Accum;
      hide Indexed, Step, NatBits, Pow2, Bits;
      WindowSizes(windowSize, buffer[..], inputSize, base, stream);
      TokenDone(windowSize, lookaheadSize, stream, finishing, tokens);
      LiteralBits(windowSize, lookaheadSize, StreamBits(windowSize, lookaheadSize, tokens), c);
      tokens := Snoc(tokens, Literal(c));
    }

    method PushOutgoingBits(oi: OutputInfo, ghost before: seq<Byte>) returns (count: nat)
      requires oi.CanTakeByte() && Accum(partial, currentByte, bitIndex) && Delivered(oi, before)
      modifies `currentByte, `bitIndex, `emitted, `partial, `outgoingBitsCount, oi`outputSize, oi.buf
      ensures Accum(partial, currentByte, bitIndex) && Delivered(oi, before)
      ensures count == 0 <==> old(outgoingBitsCount) == 0
      ensures outgoingBitsCount == old(outgoingBitsCount) - count
      ensures count > 0 ==> Bits() == old(Bits()) + NatBits(count, Shr(outgoingBits, outgoingBitsCount))
      ensures count == 0 ==> oi.outputSize == old(oi.outputSize) && Bits() == old(Bits())
    {
      hide NatBits, Unpack, Accum;
      var bits;
      if outgoingBitsCount > 8 {
        count := 8;
        bits := Shr(outgoingBits, outgoingBitsCount - 8);
      } else {
        count := outgoingBitsCount;
        bits := outgoingBits;
      }
      if count > 0 {
        PushBits(count, bits, oi, before);
        outgoingBitsCount := outgoingBitsCount - count;
      }
    }

    method StYieldBrIndex(oi: OutputInfo, ghost before: seq<Byte>) returns (next: State)
      requires Valid() && state == YieldBrIndex && Delivered(oi, before) && Separate(oi)
      modifies `currentByte, `bitIndex, `emitted, `partial, `outgoingBits, `outgoingBitsCount, oi`outputSize, oi.buf
      ensures ValidIn(next) && Delivered(oi, before)
      ensures next == YieldBrIndex || next == YieldBrLength
      ensures old(oi.CanTakeByte()) && next == YieldBrIndex ==> outgoingBitsCount < old(outgoingBitsCount)
    {
      hide Delivered, Scanning, Contents, Window, Parse, TotalLen, ValidTokens, StreamBits, Unpack, SpecEncode;
      hide Accum, Indexed, Step, NatBits, Shr, SoFar, Pow2;
      if !oi.CanTakeByte() {
        return YieldBrIndex;
      }
      ghost var done, left := StreamBits(windowSize, lookaheadSize, tokens), outgoingBitsCount;
      var count := PushOutgoingBits(oi, before);
      if count > 0 {
        SoFarAdvances(windowSize, lookaheadSize, YieldBrIndex, matchPos, matchLength, left, count, done);
        next := YieldBrIndex;
      } else {
        DistanceDone();
        next := YieldBrLength;
      }
    }

    /** The distance is output completely, and the length comes next. */
    method DistanceDone()
      requires ValidIn(YieldBrIndex) && outgoingBitsCount == 0
      modifies `outgoingBits, `outgoingBitsCount
      ensures ValidIn(YieldBrLength)
    {
      hide Scanning, Contents, Window, Parse, TotalLen, ValidTokens, StreamBits, Unpack, SpecEncode, Accum;
      hide Indexed, Step, NatBits, SoFar, Pow2;
      SoFarEnds(windowSize, lookaheadSize, matchPos, matchLength);
      outgoingBits := matchLength - 1;
      outgoingBitsCount := lookaheadSize;
    }

    method StYieldBrLength(oi: OutputInfo, ghost before: seq<Byte>) returns (next: State)
      requires Valid() && state == YieldBrLength && Delivered(oi, before) && Separate(oi)
      modifies `currentByte, `bitIndex, `emitted, `partial, `outgoingBitsCount
      modifies `matchScanIndex, `matchLength, `tokens, oi`outputSize, oi.buf
      ensures ValidIn(next) && Delivered(oi, before)
      ensures next == YieldBrLength || next == Search
      ensures old(oi.CanTakeByte()) && next == YieldBrLength ==>
        outgoingBitsCount < old(outgoingBitsCount) && tokens == old(tokens)
      ensures next == Search ==> TotalLen(tokens) > old(TotalLen(tokens))
    {
      hide Delivered, Scanning, Contents, Window, Parse, TotalLen, ValidTokens, StreamBits, Unpack, SpecEncode;
      hide Accum, Indexed, Step, NatBits, Shr, SoFar, Pow2;
      if !oi.CanTakeByte() {
        return YieldBrLength;
      }
      ghost var done, left := StreamBits(windowSize, lookaheadSize, tokens), outgoingBitsCount;
      var count := PushOutgoingBits(oi, before);
      if count > 0 {
        SoFarAdvances(windowSize, lookaheadSize, YieldBrLength, matchPos, matchLength, left, count, done);
        next := YieldBrLength;
      } else {
        BackRefDone();
        next := Search;
      }
    }

    /** The back-reference is output completely, and scanning goes on behind it. */
    method BackRefDone()
      requires ValidIn(YieldBrLength) && outgoingBitsCount == 0
      modifies `matchScanIndex, `matchLength, `tokens
      ensures matchLength == 0
      ensures ValidIn(Search) && TotalLen(tokens) > old(TotalLen(tokens))
    {
      hide Contents, Window, Parse, TotalLen, ValidTokens, StreamBits, TokenBits, Unpack, SpecEncode, Accum;
      hide Indexed, Step, NatBits, SoFar, Pow2;
      SoFarEnds(windowSize, lookaheadSize, matchPos, matchLength);
      WindowSizes(windowSize, buffer[..], inputSize, base, stream);
      TokenDone(windowSize, lookaheadSize, stream, finishing, tokens);
      tokens := Snoc(tokens, BackRef(matchPos, matchLength));
      matchScanIndex := matchScanIndex + matchLength;
      matchLength := 0;
      SoFarNone(windowSize, lookaheadSize, Search, matchPos, matchLength, outgoingBitsCount);
    }

    method StSaveBacklog() returns (next: State)
      requires Valid() && state == SaveBacklog
      modifies `inputSize, `matchScanIndex, `base, buffer
      ensures ValidIn(next) && next == NotFull
    {
      hide Window, Parse, TotalLen, ValidTokens, StreamBits, Unpack, SpecEncode, Accum, Indexed, Pow2;
      var inputBufSz := Pow2(windowSize);
      var msi := matchScanIndex;
      var rem := inputBufSz - msi;  // unprocessed bytes
      ShiftWindow(inputBufSz - rem, inputBufSz + rem);
      base := base + msi;
      matchScanIndex := 0;
      inputSize := inputSize - (inputBufSz - rem);
      next := NotFull;
    }

    /** The window moves on along the stream. */
    method ShiftWindow(offset: nat, shiftSz: nat)
      requires Window(windowSize, buffer[..], Pow2(windowSize), base, stream)
      requires buffer.Length == 2 * Pow2(windowSize) && 1 <= offset <= Pow2(windowSize)
      requires shiftSz == buffer.Length - offset
      modifies buffer
      ensures Window(windowSize, buffer[..], Pow2(windowSize) - offset, base + offset, stream)
    {
      hide Window, Pow2;
      ghost var was := buffer[..];
      ShiftDown(offset, shiftSz);
      WindowShift(windowSize, was, buffer[..], offset, base, stream);
    }

    /** The copying loop: the bytes from offset on move to the front. */
    method ShiftDown(offset: nat, shiftSz: nat)
      requires 1 <= offset && offset + shiftSz <= buffer.Length
      modifies buffer
      ensures buffer[..shiftSz] == old(buffer[offset..offset + shiftSz])
    {
      ghost var was := buffer[..];
      for i := 0 to shiftSz
        invariant forall k :: 0 <= k < i ==> buffer[k] == was[offset + k]
        invariant forall k :: i <= k < buffer.Length ==> buffer[k] == was[k]
      {
        buffer[i] := buffer[offset + i];
      }
    }

    method StFlushBitBuffer(oi: OutputInfo, ghost before: seq<Byte>) returns (next: State)
      requires Valid() && state == FlushBits && Delivered(oi, before) && Separate(oi)
      modifies `emitted, oi`outputSize, oi.buf
      ensures ValidIn(next) && Delivered(oi, before)
      ensures next == FlushBits || next == Done
      ensures old(oi.CanTakeByte()) ==> next == Done
    {
      hide Delivered, Scanning, Contents, Parse, TotalLen, ValidTokens, StreamBits, Unpack, SpecEncode, Accum, Pow2;
      hide NatBits, Window;
      WindowSizes(windowSize, buffer[..], inputSize, base, stream);
      AccumFacts(partial, currentByte, bitIndex);
      FlushedIsSpec(windowSize, lookaheadSize, stream, tokens, emitted, partial, currentByte, bitIndex);
      if bitIndex == 0x80 {
        return Done;
      }
      if oi.CanTakeByte() {
        PutByte(currentByte, oi, before);
        return Done;
      }
      return FlushBits;
    }

    // ----- the poll loop -----

    /** With room for nine bits a byte, the output buffer is never full when a step asks for space. */
    lemma HasRoom(oi: OutputInfo, before: seq<Byte>)
      requires Valid() && Delivered(oi, before)
      requires state in {YieldTagBit, YieldLiteral, YieldBrIndex, YieldBrLength, FlushBits}
      requires 9 * |stream| < 8 * (|before| + oi.buf.Length)
      ensures oi.CanTakeByte()
    {
      hide Window, StreamBits, NatBits, Accum, Indexed, Step, SpecEncode;
      ParseFacts(windowSize, lookaheadSize, stream, finishing, tokens);
      BitsBound(windowSize, lookaheadSize, stream, finishing, tokens);
      var w, l := windowSize, lookaheadSize;
      assert |Bits()| ==
        |StreamBits(w, l, tokens)| + |SoFar(w, l, state, matchPos, matchLength, outgoingBitsCount)|;
    }

    method Enter(next: State)
      requires ValidIn(next)
      modifies `state
      ensures state == next && Valid()
    {
      hide ValidIn;
      state := next;
    }

    ghost function Remaining(): int
      reads `stream, `tokens
    {
      |stream| - TotalLen(tokens)
    }

    /** The measure that every turn of the poll loop lowers. */
    twostate predicate Progress()
      reads this
    {
      || Remaining() < old(Remaining())
      || (Remaining() == old(Remaining()) && Rank(state) < old(Rank(state)))
      || (Remaining() == old(Remaining()) && state == old(state) && outgoingBitsCount < old(outgoingBitsCount))
    }

    /** One turn of the poll loop. */
    method Turn(oi: OutputInfo, ghost before: seq<Byte>)
      requires Valid() && state != NotFull && state != Done
      requires Delivered(oi, before) && Separate(oi) && 9 * |stream| < 8 * (|before| + oi.buf.Length)
      modifies this, buffer, searchIndex, oi`outputSize, oi.buf
      ensures Valid() && Delivered(oi, before) && stream == old(stream) && finishing == old(finishing)
      ensures (state == NotFull ==> !finishing) && (state == Done ==> finishing)
      ensures Progress()
    {
      hide Delivered, ValidIn, TotalLen;
      if state == Filled {
        StartScan();
        Enter(Search);
      } else if state == Search {
        var next := StStepSearch();
        Enter(next);
      } else if state == SaveBacklog {
        var next := StSaveBacklog();
        Enter(next);
      } else {
        HasRoom(oi, before);
        if state == FlushBits {
          var next := StFlushBitBuffer(oi, before);
          Enter(next);
        } else if state == YieldTagBit || state == YieldLiteral {
          LiteralTurn(oi, before);
        } else {
          BackRefTurn(oi, before);
        }
      }
      IdleFlags();
    }

    method LiteralTurn(oi: OutputInfo, ghost before: seq<Byte>)
      requires Valid() && (state == YieldTagBit || state == YieldLiteral)
      requires Delivered(oi, before) && Separate(oi) && oi.CanTakeByte()
      modifies this, oi`outputSize, oi.buf
      ensures Valid() && Delivered(oi, before) && stream == old(stream) && finishing == old(finishing)
      ensures Progress()
    {
      hide Delivered, ValidIn, TotalLen;
      if state == YieldTagBit {
        var next := StYieldTagBit(oi, before);
        Enter(next);
      } else {
        var next := StYieldLiteral(oi, before);
        Enter(next);
      }
    }

    method BackRefTurn(oi: OutputInfo, ghost before: seq<Byte>)
      requires Valid() && (state == YieldBrIndex || state == YieldBrLength)
      requires Delivered(oi, before) && Separate(oi) && oi.CanTakeByte()
      modifies this, oi`outputSize, oi.buf
      ensures Valid() && Delivered(oi, before) && stream == old(stream) && finishing == old(finishing)
      ensures Progress()
    {
      hide Delivered, ValidIn, TotalLen;
      if state == YieldBrIndex {
        var next := StYieldBrIndex(oi, before);
        Enter(next);
      } else {
        var next := StYieldBrLength(oi, before);
        Enter(next);
      }
    }

    method StartScan()
      requires Valid() && state == Filled
      modifies searchIndex
      ensures ValidIn(Search)
    {
      hide Parse, TotalLen, ValidTokens, StreamBits, Unpack, SpecEncode, Accum, Indexed, Step, NatBits, Pow2;
      DoIndexing();
    }

    lemma NothingNegative()
      requires Valid()
      ensures Remaining() >= 0
    {
      ParseFacts(windowSize, lookaheadSize, stream, finishing, tokens);
    }

    method Poll(outBuf: array<Byte>) returns (res: PollRes, size: nat)
      requires Valid() && Idle()
      requires (outBuf as object) != (buffer as object) && (outBuf as object) != (searchIndex as object)
      requires outBuf.Length > 0 ==> 9 * |stream| < 8 * (|emitted| + outBuf.Length)
      modifies this, buffer, searchIndex, outBuf
      ensures Valid() && Idle() && stream == old(stream) && finishing == old(finishing)
      ensures size <= outBuf.Length && emitted == old(emitted) + outBuf[..size]
      ensures res == if outBuf.Length == 0 then PollErrorMisuse else PollEmpty
      ensures res == PollEmpty ==> state == if finishing then Done else NotFull
      ensures res == PollErrorMisuse ==> state == old(state)
    {
      if outBuf.Length == 0 {
        return PollErrorMisuse, 0;
      }
      hide Delivered, ValidIn, TotalLen;
      var oi := new OutputInfo(outBuf);
      ghost var before := emitted;
      NothingNegative();
      IdleFlags();
      // The check for a full output buffer compares a pointer with a number, so PollMore is never returned.
      while state != NotFull && state != Done
        invariant oi.buf == outBuf && fresh(oi)
        invariant Valid() && Delivered(oi, before) && Separate(oi)
        invariant stream == old(stream) && finishing == old(finishing)
        invariant (state == NotFull ==> !finishing) && (state == Done ==> finishing)
        invariant Remaining() >= 0
        decreases Remaining(), Rank(state), outgoingBitsCount
      {
        Turn(oi, before);
        NothingNegative();
      }
      return PollEmpty, oi.outputSize;
    }

    lemma DoneMeans()
      requires Valid() && state == Done
      ensures emitted == SpecEncode(windowSize, lookaheadSize, stream)
    {
      hide Window, Parse, TotalLen, ValidTokens, StreamBits, Unpack, SpecEncode, Accum, Indexed, Step, NatBits, Pow2;
    }

    lemma IdleFlags()
      requires Valid()
      ensures (state == NotFull ==> !finishing) && (state == Done ==> finishing)
    {
    }
  }

  /** The order in which the states of one token, and of one block, follow each other. */
  ghost function Rank(st: State): nat {
    match st
    case Filled => 7
    case Search => 6
    case YieldTagBit => 5
    case YieldLiteral => 4
    case YieldBrIndex => 4
    case YieldBrLength => 3
    case SaveBacklog => 2
    case FlushBits => 1
    case NotFull => 0
    case Done => 0
  }

  lemma EmptySpec(w: nat, l: nat)
    ensures SpecEncode(w, l, []) == []
  {
    assert Fill([]) == [];
  }

  /** One round of the encoding loop: fill the buffer, and output what can be output. */
  method EncodeBlock(hse: Encoder, rest: seq<Byte>, outBuf: array<Byte>) returns (taken: nat, out: seq<Byte>)
    requires hse.Valid() && hse.state == NotFull && !hse.finishing
    requires (outBuf as object) != (hse.buffer as object) && (outBuf as object) != (hse.searchIndex as object)
    requires rest != [] && 9 * (|hse.stream| + |rest|) < 8 * outBuf.Length
    modifies hse, hse.buffer, hse.searchIndex, outBuf
    ensures hse.Valid() && 0 < taken <= |rest|
    ensures hse.stream == old(hse.stream) + rest[..taken] && hse.emitted == old(hse.emitted) + out
    ensures if taken == |rest| then hse.state == Done else hse.state == NotFull && !hse.finishing
  {
    assert hse.Idle();
    hide *;
    var sinkRes;
    sinkRes, taken := hse.Sink(rest);
    if taken == |rest| {
      var _ := hse.Finish();
    }
    var pollRes, size := hse.Poll(outBuf);
    out := outBuf[..size];
    if taken == |rest| {
      var _ := hse.Finish();
    }
  }

  method Encode(data: seq<Byte>, windowSize: nat, lookaheadSize: nat) returns (ret: seq<Byte>)
    requires lookaheadSize <= windowSize <= 14
    ensures ret == SpecEncode(windowSize, lookaheadSize, data)
    ensures exists ts ::
      && ValidTokens(windowSize, lookaheadSize, ts) && ret == Pack(Fill(StreamBits(windowSize, lookaheadSize, ts)))
      && EachCalledFor(windowSize, lookaheadSize, data, ts) && TotalLen(ts) == |data|
    ensures 7 <= windowSize + lookaheadSize ==> Decode(windowSize, lookaheadSize, ret) == data
    ensures 8 * |ret| <= 9 * |data| + 7
  {
    hide *;
    var hse := new Encoder(windowSize, lookaheadSize);
    var inSize := |data|;
    var outBuf := new Byte[4 * inSize](i => 0);
    var sunk := 0;
    ret := [];
    while sunk < inSize
      invariant 0 <= sunk <= inSize && (sunk == 0 ==> ret == [])
      invariant hse.Valid() && fresh(hse) && fresh(hse.buffer) && fresh(hse.searchIndex) && fresh(outBuf)
      invariant (outBuf as object) != (hse.buffer as object) && (outBuf as object) != (hse.searchIndex as object)
      invariant hse.stream == data[..sunk] && hse.emitted == ret
      invariant hse.windowSize == windowSize && hse.lookaheadSize == lookaheadSize
      invariant sunk < inSize ==> hse.state == NotFull && !hse.finishing
      invariant sunk == inSize > 0 ==> hse.state == Done
    {
      var taken, out := EncodeBlock(hse, data[sunk..], outBuf);
      assert data[..sunk] + data[sunk..][..taken] == data[..sunk + taken];
      sunk := sunk + taken;
      ret := ret + out;
    }
    assert data[..sunk] == data;
    if inSize > 0 {
      hse.DoneMeans();
    } else {
      assert data == [];
      EmptySpec(windowSize, lookaheadSize);
    }
    SpecCalledFor(windowSize, lookaheadSize, data);
    SpecSize(windowSize, lookaheadSize, data);
    if 7 <= windowSize + lookaheadSize {
      SpecRoundTrip(windowSize, lookaheadSize, data);
    }
  }
}
