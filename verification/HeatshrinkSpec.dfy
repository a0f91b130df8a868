/**
 * The heatshrink bit grammar, its decoder, and the block-free greedy parse
 * that the encoder is proved to produce.
 *
 * A token is tag bit 1 and eight literal bits, or tag bit 0, w bits of
 * distance - 1 and l bits of length - 1.  The decoder's history starts as zeros.
 */
module HeatshrinkSpec {
  import opened Bits
  import opened Sequences

  datatype Token = Literal(b: Byte) | BackRef(dist: nat, len: nat)

  /** A token sequence, grown at its end. */
  datatype Tokens = Nil | Snoc(init: Tokens, last: Token)

  predicate ValidToken(w: nat, l: nat, t: Token) {
    t.BackRef? ==> 1 <= t.dist <= Pow2(w) && 1 <= t.len <= Pow2(l)
  }

  predicate ValidTokens(w: nat, l: nat, ts: Tokens) {
    ts.Snoc? ==> ValidTokens(w, l, ts.init) && ValidToken(w, l, ts.last)
  }

  function TokenLen(t: Token): nat {
    if t.Literal? then 1 else t.len
  }

  // ----- the grammar -----

  function TokenBits(w: nat, l: nat, t: Token): seq<bool>
    requires ValidToken(w, l, t)
  {
    match t
    case Literal(b) => [true] + NatBits(8, b)
    case BackRef(dist, len) => [false] + NatBits(w, dist - 1) + NatBits(l, len - 1)
  }

  function StreamBits(w: nat, l: nat, ts: Tokens): seq<bool>
    requires ValidTokens(w, l, ts)
  {
    if ts.Nil? then [] else StreamBits(w, l, ts.init) + TokenBits(w, l, ts.last)
  }

  function TotalLen(ts: Tokens): nat {
    if ts.Nil? then 0 else TotalLen(ts.init) + TokenLen(ts.last)
  }

  // ----- the decoder -----

  /** The byte d positions before the end of the output, zero before its start. */
  function Back(out: seq<Byte>, d: nat): Byte
    requires d >= 1
  {
    if d <= |out| then out[|out| - d] else 0
  }

  /** Append n bytes, each the one d positions back; the copy may overlap itself. */
  function Copy(out: seq<Byte>, d: nat, n: nat): seq<Byte>
    requires d >= 1
  {
    if n == 0 then out
    else var c := Copy(out, d, n - 1); c + [Back(c, d)]
  }

  function Apply(out: seq<Byte>, t: Token): seq<Byte>
    requires t.BackRef? ==> t.dist >= 1
  {
    match t
    case Literal(b) => out + [b]
    case BackRef(dist, len) => Copy(out, dist, len)
  }

  function DecodeBits(w: nat, l: nat, bits: seq<bool>, out: seq<Byte>): seq<Byte>
    decreases |bits|
  {
    if bits == [] then out
    else
      var body := bits[1..];
      if bits[0] then
        if |body| < 8 then out
        else DecodeBits(w, l, body[8..], out + [ByteOf(body[..8])])
      else
        if |body| < w + l then out
        else
          var tail := body[w..];
          DecodeBits(w, l, tail[l..], Copy(out, ToNat(body[..w]) + 1, ToNat(tail[..l]) + 1))
  }

  function Decode(w: nat, l: nat, code: seq<Byte>): seq<Byte> {
    DecodeBits(w, l, Unpack(code), [])
  }

  /** The data that a token sequence stands for. */
  function Expand(w: nat, l: nat, ts: Tokens): seq<Byte>
    requires ValidTokens(w, l, ts)
  {
    if ts.Nil? then [] else Apply(Expand(w, l, ts.init), ts.last)
  }

  lemma DecodeLiteral(w: nat, l: nat, b: Byte, rest: seq<bool>, out: seq<Byte>)
    ensures DecodeBits(w, l, TokenBits(w, l, Literal(b)) + rest, out) == DecodeBits(w, l, rest, out + [b])
  {
    var bits, d := TokenBits(w, l, Literal(b)) + rest, NatBits(8, b);
    assert bits[1..] == d + rest;
    assert (d + rest)[..8] == d && (d + rest)[8..] == rest;
    assert Pow2(8) == 256;
    ToNatOfNatBits(8, b);
  }

  lemma DecodeFields(w: nat, l: nat, bits: seq<bool>, d: seq<bool>, n: seq<bool>, rest: seq<bool>, out: seq<Byte>)
    requires |d| == w && |n| == l && bits != [] && !bits[0] && bits[1..] == d + (n + rest)
    ensures DecodeBits(w, l, bits, out) == DecodeBits(w, l, rest, Copy(out, ToNat(d) + 1, ToNat(n) + 1))
  {
    hide ToNat, Copy, ByteOf;
    var body, tail := d + (n + rest), n + rest;
    assert body[..w] == d && body[w..] == tail;
    assert tail[..l] == n && tail[l..] == rest;
    assert DecodeBits(w, l, bits, out) ==
      DecodeBits(w, l, tail[l..], Copy(out, ToNat(body[..w]) + 1, ToNat(tail[..l]) + 1));
  }

  lemma AfterTag<T>(tag: T, a: seq<T>, b: seq<T>, rest: seq<T>)
    ensures var s := [tag] + a + b + rest; s != [] && s[0] == tag && s[1..] == a + (b + rest)
  {
  }

  lemma DecodeBackRef(w: nat, l: nat, dist: nat, len: nat, rest: seq<bool>, out: seq<Byte>)
    requires ValidToken(w, l, BackRef(dist, len))
    ensures DecodeBits(w, l, TokenBits(w, l, BackRef(dist, len)) + rest, out)
         == DecodeBits(w, l, rest, Copy(out, dist, len))
  {
    hide DecodeBits, NatBits, ToNat, Copy;
    ToNatOfNatBits(w, dist - 1);
    ToNatOfNatBits(l, len - 1);
    var d, n := NatBits(w, dist - 1), NatBits(l, len - 1);
    AfterTag(false, d, n, rest);
    DecodeFields(w, l, [false] + d + n + rest, d, n, rest, out);
  }

  /** Every valid token is read back as itself, whatever follows it. */
  lemma DecodeToken(w: nat, l: nat, t: Token, rest: seq<bool>, out: seq<Byte>)
    requires ValidToken(w, l, t)
    ensures DecodeBits(w, l, TokenBits(w, l, t) + rest, out) == DecodeBits(w, l, rest, Apply(out, t))
  {
    match t
    case Literal(b) => DecodeLiteral(w, l, b, rest, out);
    case BackRef(dist, len) => DecodeBackRef(w, l, dist, len, rest, out);
  }

  lemma {:induction false} DecodeStream(w: nat, l: nat, ts: Tokens, rest: seq<bool>)
    requires ValidTokens(w, l, ts)
    ensures DecodeBits(w, l, StreamBits(w, l, ts) + rest, []) == DecodeBits(w, l, rest, Expand(w, l, ts))
  {
    hide DecodeBits;
    if ts.Nil? {
      assert StreamBits(w, l, ts) + rest == rest;
    } else {
      var token := TokenBits(w, l, ts.last);
      assert StreamBits(w, l, ts) + rest == StreamBits(w, l, ts.init) + (token + rest);
      DecodeStream(w, l, ts.init, token + rest);
      DecodeToken(w, l, ts.last, rest, Expand(w, l, ts.init));
    }
  }

  // ----- the naive match search -----

  /** Length of the common prefix of s[p..] and s[q..], at most cap. */
  function CommonPrefix(s: seq<Byte>, p: nat, q: nat, cap: nat): (r: nat)
    requires p + cap <= |s| && q + cap <= |s|
    ensures r <= cap
    decreases cap
  {
    if cap == 0 || s[p] != s[q] then 0 else 1 + CommonPrefix(s, p + 1, q + 1, cap - 1)
  }

  /** n is the length of the common prefix exactly when the first n bytes agree and no more do. */
  lemma {:induction false} CommonPrefixIs(s: seq<Byte>, p: nat, q: nat, cap: nat, n: nat)
    requires p + cap <= |s| && q + cap <= |s| && n <= cap
    ensures n == CommonPrefix(s, p, q, cap)
       <==> s[p..p + n] == s[q..q + n] && (n < cap ==> s[p + n] != s[q + n])
    decreases cap
  {
    if n > 0 {
      CommonPrefixIs(s, p + 1, q + 1, cap - 1, n - 1);
      assert s[p..p + n] == [s[p]] + s[p + 1..p + n];
      assert s[q..q + n] == [s[q]] + s[q + 1..q + n];
      assert (p + 1) + (n - 1) == p + n && (q + 1) + (n - 1) == q + n;
    }
  }

  datatype Match = Match(pos: nat, len: nat)

  /** Try every start position from end - 1 down to lo, keeping strictly longer matches. */
  function Scan(s: seq<Byte>, lo: nat, end: nat, cap: nat): (m: Match)
    requires lo <= end && end + cap <= |s|
    ensures lo <= m.pos <= end && m.len <= cap
    ensures m.len == 0 <==> m.pos == end
    decreases end - lo
  {
    if lo == end then Match(end, 0)
    else
      var m := Scan(s, lo + 1, end, cap);
      var c := CommonPrefix(s, lo, end, cap);
      if c > m.len then Match(lo, c) else m
  }

  /** The scan returns the longest match, and the nearest one of that length. */
  lemma {:induction false} ScanIsNearestLongest(s: seq<Byte>, lo: nat, end: nat, cap: nat)
    requires lo <= end && end + cap <= |s|
    ensures var m := Scan(s, lo, end, cap);
      && (m.pos < end ==> CommonPrefix(s, m.pos, end, cap) == m.len)
      && (forall p :: lo <= p < end ==> CommonPrefix(s, p, end, cap) <= m.len)
      && (forall p :: m.pos < p < end ==> CommonPrefix(s, p, end, cap) < m.len)
    decreases end - lo
  {
    if lo < end {
      ScanIsNearestLongest(s, lo + 1, end, cap);
    }
  }

  /** Positions that cannot beat the best match so far may be skipped. */
  lemma {:induction false} ScanSkips(s: seq<Byte>, lo: nat, hi: nat, end: nat, cap: nat)
    requires lo <= hi <= end && end + cap <= |s|
    requires forall p :: lo <= p < hi ==> CommonPrefix(s, p, end, cap) <= Scan(s, hi, end, cap).len
    ensures Scan(s, lo, end, cap) == Scan(s, hi, end, cap)
    decreases hi - lo
  {
    if lo < hi {
      ScanSkips(s, lo + 1, hi, end, cap);
    }
  }

  // ----- the greedy parse -----

  function ZeroBytes(n: nat): (r: seq<Byte>)
    ensures |r| == n
  {
    seq(n, i => 0)
  }

  /** The data behind one window of zero history. */
  function Padded(w: nat, data: seq<Byte>): (r: seq<Byte>)
    ensures |r| == Pow2(w) + |data|
  {
    ZeroBytes(Pow2(w)) + data
  }

  /** The search compares up to maxlen - 1 bytes, but always at least one. */
  function Cap(maxlen: nat): nat {
    if maxlen <= 1 then 1 else maxlen - 1
  }

  /** A match is used only when it is longer than this. */
  function Cut(w: nat, l: nat): nat {
    (1 + w + l) / 8
  }

  /** The longest match for position pos over all distances from 1 to 2^w. */
  function Best(w: nat, l: nat, data: seq<Byte>, pos: nat): (m: Match)
    requires pos < |data|
    ensures pos <= m.pos <= pos + Pow2(w) && m.len <= Pow2(l) && pos + m.len <= |data|
    ensures m.len == 0 <==> m.pos == pos + Pow2(w)
  {
    Scan(Padded(w, data), pos, pos + Pow2(w), Cap(Min(Pow2(l), |data| - pos)))
  }

  /** The token for position pos. */
  function Step(w: nat, l: nat, data: seq<Byte>, pos: nat): (t: Token)
    requires pos < |data|
    ensures ValidToken(w, l, t) && 1 <= TokenLen(t) && pos + TokenLen(t) <= |data|
  {
    var m := Best(w, l, data, pos);
    if m.len > Cut(w, l) then BackRef(pos + Pow2(w) - m.pos, m.len) else Literal(data[pos])
  }

  /** Continue the greedy parse ts of the first pos bytes to the end of the data. */
  function GreedyFrom(w: nat, l: nat, data: seq<Byte>, pos: nat, ts: Tokens): Tokens
    requires pos <= |data|
    decreases |data| - pos
  {
    if pos == |data| then ts
    else var t := Step(w, l, data, pos); GreedyFrom(w, l, data, pos + TokenLen(t), Snoc(ts, t))
  }

  function Greedy(w: nat, l: nat, data: seq<Byte>): (ts: Tokens)
    ensures ValidTokens(w, l, ts)
  {
    GreedyParses(w, l, data, Nil);
    GreedyFrom(w, l, data, 0, Nil)
  }

  function Fill(bits: seq<bool>): (r: seq<bool>)
    ensures |r| % 8 == 0
  {
    bits + Zeros(Padding(|bits|))
  }

  /** What the encoder is specified to output. */
  function SpecEncode(w: nat, l: nat, data: seq<Byte>): seq<Byte> {
    Pack(Fill(StreamBits(w, l, Greedy(w, l, data))))
  }

  /**
   * ts is a greedy parse of the first TotalLen(ts) bytes of data.  Unless the data
   * is known to be complete, each token was chosen with a full lookahead in sight.
   */
  ghost predicate Parse(w: nat, l: nat, data: seq<Byte>, complete: bool, ts: Tokens) {
    ts.Snoc? ==>
      (var pos := TotalLen(ts.init);
       && Parse(w, l, data, complete, ts.init)
       && pos < |data|
       && ts.last == Step(w, l, data, pos)
       && (complete || pos + Pow2(l) <= |data|))
  }

  lemma {:induction false} ParseFacts(w: nat, l: nat, data: seq<Byte>, complete: bool, ts: Tokens)
    requires Parse(w, l, data, complete, ts)
    ensures ValidTokens(w, l, ts) && TotalLen(ts) <= |data|
  {
    if ts.Snoc? {
      ParseFacts(w, l, data, complete, ts.init);
    }
  }

  lemma {:induction false} ParseComplete(w: nat, l: nat, data: seq<Byte>, ts: Tokens)
    requires Parse(w, l, data, false, ts)
    ensures Parse(w, l, data, true, ts)
  {
    if ts.Snoc? {
      ParseComplete(w, l, data, ts.init);
    }
  }

  /** A parse is a beginning of the greedy parse. */
  lemma {:induction false} ParseIsGreedy(w: nat, l: nat, data: seq<Byte>, ts: Tokens)
    requires Parse(w, l, data, true, ts)
    ensures TotalLen(ts) <= |data|
    ensures GreedyFrom(w, l, data, TotalLen(ts), ts) == GreedyFrom(w, l, data, 0, Nil)
  {
    hide Step;
    if ts.Snoc? {
      ParseIsGreedy(w, l, data, ts.init);
    }
  }

  lemma GreedyOnce(w: nat, l: nat, data: seq<Byte>, pos: nat, ts: Tokens)
    requires pos < |data|
    ensures var t := Step(w, l, data, pos);
      GreedyFrom(w, l, data, pos, ts) == GreedyFrom(w, l, data, pos + TokenLen(t), Snoc(ts, t))
  {
    hide Step, Pow2, ValidToken, TokenLen;
  }

  lemma GreedyUnfold(w: nat, l: nat, data: seq<Byte>, ts: Tokens)
    requires TotalLen(ts) < |data|
    ensures var ts' := Snoc(ts, Step(w, l, data, TotalLen(ts)));
      && TotalLen(ts) < TotalLen(ts') <= |data|
      && (Parse(w, l, data, true, ts) ==> Parse(w, l, data, true, ts'))
      && GreedyFrom(w, l, data, TotalLen(ts), ts) == GreedyFrom(w, l, data, TotalLen(ts'), ts')
  {
    hide Step, GreedyFrom, Pow2, ValidToken;
    GreedyOnce(w, l, data, TotalLen(ts), ts);
  }

  /** The greedy parse covers all of the data. */
  lemma {:induction false} GreedyParses(w: nat, l: nat, data: seq<Byte>, ts: Tokens)
    requires Parse(w, l, data, true, ts) && TotalLen(ts) <= |data|
    ensures var g := GreedyFrom(w, l, data, TotalLen(ts), ts);
      ValidTokens(w, l, g) && Parse(w, l, data, true, g) && TotalLen(g) == |data|
    decreases |data| - TotalLen(ts)
  {
    if TotalLen(ts) == |data| {
      ParseFacts(w, l, data, true, ts);
    } else {
      hide *;
      GreedyUnfold(w, l, data, ts);
      GreedyParses(w, l, data, Snoc(ts, Step(w, l, data, TotalLen(ts))));
    }
  }

  lemma {:induction false} CommonPrefixLocal(s: seq<Byte>, t: seq<Byte>, k: nat, p: nat, q: nat, cap: nat)
    requires p + cap <= |s| && q + cap <= |s|
    requires k + |s| <= |t| && s == t[k..k + |s|]
    ensures CommonPrefix(s, p, q, cap) == CommonPrefix(t, k + p, k + q, cap)
    decreases cap
  {
    if cap > 0 {
      assert s[p] == t[k + p] && s[q] == t[k + q];
      if s[p] == s[q] {
        CommonPrefixLocal(s, t, k, p + 1, q + 1, cap - 1);
        assert k + (p + 1) == (k + p) + 1 && k + (q + 1) == (k + q) + 1;
      }
    }
  }

  /** The scan sees only the bytes it compares. */
  lemma {:induction false} ScanLocal(s: seq<Byte>, t: seq<Byte>, k: nat, lo: nat, end: nat, cap: nat)
    requires lo <= end && end + cap <= |s|
    requires k + |s| <= |t| && s == t[k..k + |s|]
    ensures var m, m' := Scan(s, lo, end, cap), Scan(t, k + lo, k + end, cap);
      m'.pos == k + m.pos && m'.len == m.len
    decreases end - lo
  {
    if lo < end {
      ScanLocal(s, t, k, lo + 1, end, cap);
      CommonPrefixLocal(s, t, k, lo, end, cap);
      assert k + (lo + 1) == (k + lo) + 1;
    }
  }

  lemma BestStable(w: nat, l: nat, data: seq<Byte>, more: seq<Byte>, pos: nat)
    requires pos < |data| && pos + Pow2(l) <= |data|
    ensures Best(w, l, data + more, pos) == Best(w, l, data, pos)
  {
    var s, t := Padded(w, data), Padded(w, data + more);
    assert s == t[0..|s|];
    ScanLocal(s, t, 0, pos, pos + Pow2(w), Cap(Pow2(l)));
  }

  /** Data that arrives later does not change a token chosen with a full lookahead. */
  lemma StepStable(w: nat, l: nat, data: seq<Byte>, more: seq<Byte>, pos: nat)
    requires pos < |data| && pos + Pow2(l) <= |data|
    ensures Step(w, l, data + more, pos) == Step(w, l, data, pos)
  {
    BestStable(w, l, data, more, pos);
  }

  lemma {:induction false} ParseStable(w: nat, l: nat, data: seq<Byte>, more: seq<Byte>, ts: Tokens)
    requires Parse(w, l, data, false, ts)
    ensures Parse(w, l, data + more, false, ts)
  {
    if ts.Snoc? {
      ParseStable(w, l, data, more, ts.init);
      StepStable(w, l, data, more, TotalLen(ts.init));
    }
  }

  // ----- what the greedy parse chooses, without the search -----

  /** The byte at i is the one d positions before it; the history before the data is zero. */
  ghost predicate RepeatsAt(data: seq<Byte>, i: nat, d: nat)
    requires i < |data|
  {
    if d <= i then data[i] == data[i - d] else data[i] == 0
  }

  /** The n bytes from pos on repeat those d positions before them. */
  ghost predicate Repeats(data: seq<Byte>, pos: nat, d: nat, n: nat) {
    pos + n <= |data| && forall i :: pos <= i < pos + n ==> RepeatsAt(data, i, d)
  }

  /** The lengths that a match for position pos may have: all but one of the bytes in sight, or a single byte. */
  ghost predicate InSight(l: nat, data: seq<Byte>, pos: nat, n: nat) {
    pos + n <= |data| && (n == 1 || (n + 1 <= Pow2(l) && pos + n + 1 <= |data|))
  }

  /**
   * The token that position pos calls for: the nearest of the longest repetitions in the window if
   * that takes fewer bits than its literals would, and otherwise a literal.
   */
  ghost predicate CalledFor(w: nat, l: nat, data: seq<Byte>, pos: nat, t: Token)
    requires pos < |data|
  {
    match t
    case Literal(b) =>
      && b == data[pos]
      && forall d, n: nat :: 1 <= d <= Pow2(w) && InSight(l, data, pos, n) && Repeats(data, pos, d, n) ==>
           8 * n <= 1 + w + l
    case BackRef(dist, len) =>
      && 1 <= dist <= Pow2(w) && InSight(l, data, pos, len) && Repeats(data, pos, dist, len) && 8 * len > 1 + w + l
      && forall d, n: nat :: 1 <= d <= Pow2(w) && InSight(l, data, pos, n) && Repeats(data, pos, d, n) ==>
           n <= len && (n == len ==> dist <= d)
  }

  lemma PaddedByte(w: nat, data: seq<Byte>, i: nat, d: nat)
    requires d <= Pow2(w) && i < |data|
    ensures var s, q := Padded(w, data), Pow2(w) + i; RepeatsAt(data, i, d) <==> s[q - d] == s[q]
  {
  }

  /** Comparing slices of the padded data tells where the data repeats. */
  lemma RepeatsInPadded(w: nat, data: seq<Byte>, pos: nat, d: nat, n: nat)
    requires 1 <= d <= Pow2(w) && pos + n <= |data|
    ensures var s, q := Padded(w, data), Pow2(w) + pos;
      Repeats(data, pos, d, n) <==> s[q - d..q - d + n] == s[q..q + n]
  {
    hide Padded, Pow2, RepeatsAt;
    var s, q := Padded(w, data), Pow2(w) + pos;
    var a, b := s[q - d..q - d + n], s[q..q + n];
    forall k: nat | k < n ensures a[k] == b[k] <==> RepeatsAt(data, pos + k, d) {
      PaddedByte(w, data, pos + k, d);
    }
    if a == b {
      forall i | pos <= i < pos + n ensures RepeatsAt(data, i, d) {
        assert a[i - pos] == b[i - pos];
      }
    }
  }

  /** Bytes agree up to n exactly if the common prefix is at least that long. */
  lemma PrefixAtLeast(s: seq<Byte>, p: nat, q: nat, cap: nat, n: nat)
    requires p + cap <= |s| && q + cap <= |s| && n <= cap
    ensures n <= CommonPrefix(s, p, q, cap) <==> s[p..p + n] == s[q..q + n]
  {
    var c := CommonPrefix(s, p, q, cap);
    CommonPrefixIs(s, p, q, cap, c);
    if n <= c {
      assert s[p..p + n] == s[p..p + c][..n] && s[q..q + n] == s[q..q + c][..n];
    } else {
      assert s[p..p + n][c] == s[p + c] && s[q..q + n][c] == s[q + c];
    }
  }

  lemma CapIsSight(l: nat, data: seq<Byte>, pos: nat, n: nat)
    requires pos < |data|
    ensures n <= Cap(Min(Pow2(l), |data| - pos)) <==> InSight(l, data, pos, n)
    ensures pos + Cap(Min(Pow2(l), |data| - pos)) <= |data|
  {
  }

  /** No repetition is longer than the match that the search finds, and none as long is nearer. */
  lemma BestIsBest(w: nat, l: nat, data: seq<Byte>, pos: nat, d: nat, n: nat)
    requires pos < |data| && 1 <= d <= Pow2(w) && InSight(l, data, pos, n) && Repeats(data, pos, d, n)
    ensures var m := Best(w, l, data, pos);
      n <= m.len && (n == m.len > 0 ==> pos + Pow2(w) - m.pos <= d)
  {
    hide Scan, CommonPrefix, Padded, Cap, Min, Pow2, Repeats;
    var s, end, cap := Padded(w, data), pos + Pow2(w), Cap(Min(Pow2(l), |data| - pos));
    CapIsSight(l, data, pos, n);
    RepeatsInPadded(w, data, pos, d, n);
    ScanIsNearestLongest(s, pos, end, cap);
    PrefixAtLeast(s, end - d, end, cap, n);
    assert CommonPrefix(s, end - d, end, cap) <= Scan(s, pos, end, cap).len;
  }

  /** The match that the search finds is a repetition. */
  lemma BestRepeats(w: nat, l: nat, data: seq<Byte>, pos: nat)
    requires pos < |data|
    ensures var m := Best(w, l, data, pos);
      m.len > 0 ==> InSight(l, data, pos, m.len) && Repeats(data, pos, pos + Pow2(w) - m.pos, m.len)
  {
    hide Scan, CommonPrefix, Padded, Cap, Min, Pow2, Repeats, InSight;
    var m := Best(w, l, data, pos);
    if m.len > 0 {
      CapIsSight(l, data, pos, m.len);
      MatchAgrees(Padded(w, data), pos, pos + Pow2(w), Cap(Min(Pow2(l), |data| - pos)));
      RepeatsInPadded(w, data, pos, pos + Pow2(w) - m.pos, m.len);
    }
  }

  lemma StepCalledFor(w: nat, l: nat, data: seq<Byte>, pos: nat)
    requires pos < |data|
    ensures CalledFor(w, l, data, pos, Step(w, l, data, pos))
  {
    hide Best, Repeats, InSight, Pow2;
    BestRepeats(w, l, data, pos);
    forall d, n: nat | 1 <= d <= Pow2(w) && InSight(l, data, pos, n) && Repeats(data, pos, d, n)
      ensures var m := Best(w, l, data, pos);
        n <= m.len && (n == m.len > 0 ==> pos + Pow2(w) - m.pos <= d)
    {
      BestIsBest(w, l, data, pos, d, n);
    }
  }

  /** A position calls for one token, which is the greedy one. */
  lemma StepIsCalledFor(w: nat, l: nat, data: seq<Byte>, pos: nat, t: Token)
    requires pos < |data|
    ensures t == Step(w, l, data, pos) <==> CalledFor(w, l, data, pos, t)
  {
    StepCalledFor(w, l, data, pos);
    hide Step, Repeats, InSight, Pow2;
  }

  /** Each token is called for where the ones before it end. */
  ghost predicate EachCalledFor(w: nat, l: nat, data: seq<Byte>, ts: Tokens) {
    ts.Snoc? ==>
      && EachCalledFor(w, l, data, ts.init)
      && TotalLen(ts.init) < |data| && CalledFor(w, l, data, TotalLen(ts.init), ts.last)
  }

  lemma {:induction false} ParseIsCalledFor(w: nat, l: nat, data: seq<Byte>, ts: Tokens)
    ensures Parse(w, l, data, true, ts) <==> EachCalledFor(w, l, data, ts)
  {
    hide CalledFor, Step;
    if ts.Snoc? {
      ParseIsCalledFor(w, l, data, ts.init);
      if TotalLen(ts.init) < |data| {
        StepIsCalledFor(w, l, data, TotalLen(ts.init), ts.last);
      }
    }
  }

  /** There is one way to cover the data with tokens that are called for: the greedy parse. */
  lemma GreedyIsCalledFor(w: nat, l: nat, data: seq<Byte>, ts: Tokens)
    ensures ts == Greedy(w, l, data) <==> EachCalledFor(w, l, data, ts) && TotalLen(ts) == |data|
  {
    GreedyParses(w, l, data, Nil);
    ParseIsCalledFor(w, l, data, ts);
    if Parse(w, l, data, true, ts) {
      ParseIsGreedy(w, l, data, ts);
    }
    hide EachCalledFor;
  }

  lemma SpecCalledFor(w: nat, l: nat, data: seq<Byte>)
    ensures exists ts ::
      && ValidTokens(w, l, ts) && SpecEncode(w, l, data) == Pack(Fill(StreamBits(w, l, ts)))
      && EachCalledFor(w, l, data, ts) && TotalLen(ts) == |data|
  {
    hide StreamBits, Fill, EachCalledFor;
    GreedyIsCalledFor(w, l, data, Greedy(w, l, data));
  }

  // ----- the parse means the data -----

  /** The padded data continues the data backwards. */
  lemma PaddedBack(w: nat, data: seq<Byte>, n: nat, d: nat)
    requires 1 <= d <= Pow2(w) && n < |data|
    ensures Back(data[..n], d) == Padded(w, data)[Pow2(w) + n - d]
    ensures data[n] == Padded(w, data)[Pow2(w) + n]
  {
  }

  /** Copying n bytes from distance d extends the data when the padded data agrees there. */
  lemma {:induction false} CopyMatch(w: nat, data: seq<Byte>, pos: nat, d: nat, n: nat)
    requires 1 <= d <= Pow2(w) && pos + n <= |data|
    requires var s, q := Padded(w, data), Pow2(w) + pos; s[q - d..q - d + n] == s[q..q + n]
    ensures Copy(data[..pos], d, n) == data[..pos + n]
    decreases n
  {
    if n > 0 {
      hide Padded, Back, Pow2;
      var q := Pow2(w) + pos;
      SlicesShrink(Padded(w, data), q - d, q, n);
      CopyMatch(w, data, pos, d, n - 1);
      PaddedBack(w, data, pos + (n - 1), d);
      assert data[..pos + n] == data[..pos + (n - 1)] + [data[pos + (n - 1)]];
    } else {
      assert data[..pos + 0] == data[..pos];
    }
  }

  lemma ApplyStep(w: nat, l: nat, data: seq<Byte>, pos: nat)
    requires pos < |data|
    ensures var t := Step(w, l, data, pos);
      Apply(data[..pos], t) == data[..pos + TokenLen(t)]
  {
    hide Scan, Copy, Padded, Pow2;
    var t := Step(w, l, data, pos);
    if t.BackRef? {
      MatchAgrees(Padded(w, data), pos, pos + Pow2(w), Cap(Min(Pow2(l), |data| - pos)));
      CopyMatch(w, data, pos, t.dist, t.len);
    } else {
      assert data[..pos + 1] == data[..pos] + [data[pos]];
    }
  }

  lemma MatchAgrees(s: seq<Byte>, lo: nat, end: nat, cap: nat)
    requires lo <= end && end + cap <= |s|
    ensures var m := Scan(s, lo, end, cap);
      s[m.pos..m.pos + m.len] == s[end..end + m.len]
  {
    var m := Scan(s, lo, end, cap);
    ScanIsNearestLongest(s, lo, end, cap);
    if m.pos < end {
      CommonPrefixIs(s, m.pos, end, cap, m.len);
    }
  }

  lemma {:induction false} ExpandParse(w: nat, l: nat, data: seq<Byte>, ts: Tokens)
    requires Parse(w, l, data, true, ts)
    ensures ValidTokens(w, l, ts) && TotalLen(ts) <= |data|
    ensures Expand(w, l, ts) == data[..TotalLen(ts)]
  {
    if ts.Snoc? {
      ExpandParse(w, l, data, ts.init);
      ApplyStep(w, l, data, TotalLen(ts.init));
    }
  }

  // ----- size -----

  /** A token never costs more than nine bits a byte: a back-reference beats its literals. */
  lemma StepCost(w: nat, l: nat, data: seq<Byte>, pos: nat)
    requires pos < |data|
    ensures var t := Step(w, l, data, pos);
      && |TokenBits(w, l, t)| <= 9 * TokenLen(t)
      && (t.BackRef? ==> |TokenBits(w, l, t)| < 8 * t.len)
  {
  }

  lemma {:induction false} ParseCost(w: nat, l: nat, data: seq<Byte>, complete: bool, ts: Tokens)
    requires Parse(w, l, data, complete, ts)
    ensures ValidTokens(w, l, ts)
    ensures |StreamBits(w, l, ts)| <= 9 * TotalLen(ts)
  {
    if ts.Snoc? {
      ParseCost(w, l, data, complete, ts.init);
      StepCost(w, l, data, TotalLen(ts.init));
    }
  }

  lemma SpecSize(w: nat, l: nat, data: seq<Byte>)
    ensures 8 * |SpecEncode(w, l, data)| <= 9 * |data| + 7
  {
    GreedyParses(w, l, data, Nil);
    ParseCost(w, l, data, true, Greedy(w, l, data));
  }

  // ----- the round trip -----

  /** Too few zero bits are left over to complete another token. */
  lemma DecodePadding(w: nat, l: nat, n: nat, out: seq<Byte>)
    requires n < 1 + w + l
    ensures DecodeBits(w, l, Zeros(n), out) == out
  {
  }

  lemma SpecDecodes(w: nat, l: nat, data: seq<Byte>)
    ensures var n := Padding(|StreamBits(w, l, Greedy(w, l, data))|);
      Decode(w, l, SpecEncode(w, l, data)) == DecodeBits(w, l, Zeros(n), data)
  {
    var g := Greedy(w, l, data);
    var bits := StreamBits(w, l, g);
    GreedyParses(w, l, data, Nil);
    ExpandParse(w, l, data, g);
    assert data[..|data|] == data;
    UnpackPack(Fill(bits));
    DecodeStream(w, l, g, Zeros(Padding(|bits|)));
  }

  /** Decoding undoes encoding for all data. */
  lemma SpecRoundTrip(w: nat, l: nat, data: seq<Byte>)
    requires 7 <= w + l
    ensures Decode(w, l, SpecEncode(w, l, data)) == data
  {
    SpecDecodes(w, l, data);
    DecodePadding(w, l, Padding(|StreamBits(w, l, Greedy(w, l, data))|), data);
  }

  ghost predicate RoundTrips(w: nat, l: nat) {
    forall data: seq<Byte> :: Decode(w, l, SpecEncode(w, l, data)) == data
  }

  lemma {:induction false} DecodeGrows(w: nat, l: nat, bits: seq<bool>, out: seq<Byte>)
    ensures |DecodeBits(w, l, bits, out)| >= |out|
    decreases |bits|
  {
    if bits != [] {
      var body := bits[1..];
      if bits[0] && |body| >= 8 {
        DecodeGrows(w, l, body[8..], out + [ByteOf(body[..8])]);
      } else if !bits[0] && |body| >= w + l {
        var dist, len := ToNat(body[..w]) + 1, ToNat(body[w..][..l]) + 1;
        CopyLength(out, dist, len);
        DecodeGrows(w, l, body[w..][l..], Copy(out, dist, len));
      }
    }
  }

  lemma {:induction false} CopyLength(out: seq<Byte>, d: nat, n: nat)
    requires d >= 1
    ensures |Copy(out, d, n)| == |out| + n
  {
    if n > 0 {
      CopyLength(out, d, n - 1);
    }
  }

  lemma {:induction false} NoMatchForOne(w: nat, lo: nat)
    requires lo <= Pow2(w)
    ensures Scan(Padded(w, [1]), lo, Pow2(w), 1) == Match(Pow2(w), 0)
    decreases Pow2(w) - lo
  {
    if lo < Pow2(w) {
      NoMatchForOne(w, lo + 1);
      var s := Padded(w, [1]);
      assert s[lo] == 0 && s[Pow2(w)] == 1;
    }
  }

  lemma OneByteGreedy(w: nat, l: nat)
    ensures Greedy(w, l, [1]) == Snoc(Nil, Literal(1))
  {
    var data: seq<Byte> := [1];
    NoMatchForOne(w, 0);
    hide Scan;
    assert Cap(Min(Pow2(l), 1)) == 1;
    assert Best(w, l, data, 0) == Match(Pow2(w), 0);
    assert Step(w, l, data, 0) == Literal(1);
    hide Step;
    assert GreedyFrom(w, l, data, 1, Snoc(Nil, Literal(1))) == Snoc(Nil, Literal(1));
  }

  /** With short fields the seven padding bits of the one-byte message [1] decode to a spurious byte. */
  lemma PaddingBreaks(w: nat, l: nat)
    requires w + l < 7
    ensures Decode(w, l, SpecEncode(w, l, [1])) != [1]
  {
    hide Greedy, SpecEncode, Decode, DecodeBits, NatBits;
    OneByteGreedy(w, l);
    assert StreamBits(w, l, Snoc(Nil, Literal(1))) == TokenBits(w, l, Literal(1));
    SpecDecodes(w, l, [1]);
    SpuriousByte(w, l, Zeros(7), [1]);
  }

  lemma SpuriousByte(w: nat, l: nat, bits: seq<bool>, out: seq<Byte>)
    requires w + l < |bits| && !bits[0]
    ensures |DecodeBits(w, l, bits, out)| > |out|
  {
    var body := bits[1..];
    var dist, len := ToNat(body[..w]) + 1, ToNat(body[w..][..l]) + 1;
    CopyLength(out, dist, len);
    DecodeGrows(w, l, body[w..][l..], Copy(out, dist, len));
  }

  /** Decoding undoes encoding for all data exactly when a back-reference fills a byte. */
  lemma RoundTripsIff(w: nat, l: nat)
    ensures RoundTrips(w, l) <==> 7 <= w + l
  {
    if 7 <= w + l {
      forall data: seq<Byte> ensures Decode(w, l, SpecEncode(w, l, data)) == data {
        SpecRoundTrip(w, l, data);
      }
    } else {
      PaddingBreaks(w, l);
    }
  }
}
