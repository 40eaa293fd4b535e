/**
  The canonical Huffman code of section 3.2.2 of RFC 1951.

  A code is given by its lengths alone: `lens[sym]` is the length of the code of
  `sym`, zero when the symbol is unused.  Code space is measured in units of
  2^-15, so that a code of length k occupies 2^(15-k) units and a complete set of
  codes occupies exactly `Whole` of them.
 */
module Canonical {
  import opened Bits

  const BMAX: nat := 15
  const Whole: nat := Pow2(BMAX)

  ghost predicate ValidLengths(lens: seq<nat>) {
    forall i :: 0 <= i < |lens| ==> lens[i] <= BMAX
  }

  /** The number of symbols whose code has length `k` (`bl_count` in the RFC). */
  function Count(lens: seq<nat>, k: nat): (r: nat)
    ensures r <= |lens|
  {
    if lens == [] then 0
    else Count(lens[..|lens| - 1], k) + (if lens[|lens| - 1] == k then 1 else 0)
  }

  /** The smallest code of length `k`, step 2 of the algorithm in the RFC. */
  function NextCode(lens: seq<nat>, k: nat): (r: nat) {
    if k <= 1 then 0 else 2 * (NextCode(lens, k - 1) + Count(lens, k - 1))
  }

  /** The position of `sym` among the symbols of its own length, in symbol order. */
  function Rank(lens: seq<nat>, sym: nat): (r: nat)
    requires sym < |lens|
  {
    Count(lens[..sym], lens[sym])
  }

  /** The code assigned to `sym`, step 3 of the algorithm in the RFC. */
  function CodeNumber(lens: seq<nat>, sym: nat): (r: nat)
    requires sym < |lens|
  {
    NextCode(lens, lens[sym]) + Rank(lens, sym)
  }

  /** The code of `sym` as the stream carries it: most significant bit of the code first. */
  function Code(lens: seq<nat>, sym: nat): (s: seq<bool>)
    requires sym < |lens|
    ensures |s| == lens[sym]
  {
    FromMsb(CodeNumber(lens, sym), lens[sym])
  }

  /** Whether `bits` start with the code of `sym`. */
  predicate StartsWith(lens: seq<nat>, sym: nat, bits: seq<bool>)
    requires sym < |lens|
  {
    lens[sym] > 0 && Code(lens, sym) <= bits
  }

  // ----- code space ---------------------------------------------------------

  /** The code space a set of lengths asks for, summed symbol by symbol. */
  function Kraft(lens: seq<nat>): (r: nat)
    requires ValidLengths(lens)
  {
    if lens == [] then 0
    else
      var n := |lens| - 1;
      Kraft(lens[..n]) + (if lens[n] == 0 then 0 else Pow2(BMAX - lens[n]))
  }

  /** The part of `Kraft` that codes of length at most `k` account for. */
  function KraftUpTo(lens: seq<nat>, k: nat): (r: nat)
    requires ValidLengths(lens)
  {
    if lens == [] then 0
    else
      var n := |lens| - 1;
      KraftUpTo(lens[..n], k) + (if lens[n] == 0 || lens[n] > k then 0 else Pow2(BMAX - lens[n]))
  }

  /** Where in code space a bit string starts. */
  function Lo(s: seq<bool>): (r: nat)
    requires |s| <= BMAX
  {
    Msb(s) * Pow2(BMAX - |s|)
  }

  /** Where in code space the codes of length at most `k` end. */
  function Filled(lens: seq<nat>, k: nat): (r: nat)
    requires k <= BMAX
  {
    (NextCode(lens, k) + Count(lens, k)) * Pow2(BMAX - k)
  }

  lemma {:induction false} KraftStep(lens: seq<nat>, k: nat)
    requires ValidLengths(lens) && 1 <= k <= BMAX
    ensures KraftUpTo(lens, k) == KraftUpTo(lens, k - 1) + Count(lens, k) * Pow2(BMAX - k)
  {
    if lens != [] {
      var n := |lens| - 1;
      KraftStep(lens[..n], k);
      MulDistributes(Count(lens[..n], k), if lens[n] == k then 1 else 0, Pow2(BMAX - k));
    }
  }

  lemma {:induction false} KraftUpToZero(lens: seq<nat>)
    requires ValidLengths(lens)
    ensures KraftUpTo(lens, 0) == 0
  {
    if lens != [] {
      KraftUpToZero(lens[..|lens| - 1]);
    }
  }

  /** The codes of each length follow directly on those of the lengths below. */
  lemma {:induction false} FilledIsKraft(lens: seq<nat>, k: nat)
    requires ValidLengths(lens) && 1 <= k <= BMAX
    ensures Filled(lens, k) == KraftUpTo(lens, k)
  {
    KraftStep(lens, k);
    if k == 1 {
      KraftUpToZero(lens);
    } else {
      FilledIsKraft(lens, k - 1);
      var c, u := NextCode(lens, k - 1) + Count(lens, k - 1), Pow2(BMAX - k);
      assert Pow2(BMAX - (k - 1)) == 2 * u;
      MulDouble(c, u);
      MulDistributes(2 * c, Count(lens, k), u);
    }
  }

  lemma {:induction false} KraftAll(lens: seq<nat>, g: nat)
    requires ValidLengths(lens)
    requires forall i :: 0 <= i < |lens| ==> lens[i] <= g
    ensures KraftUpTo(lens, g) == Kraft(lens)
  {
    if lens != [] {
      KraftAll(lens[..|lens| - 1], g);
    }
  }

  lemma {:induction false} KraftUpToBound(lens: seq<nat>, k: nat)
    requires ValidLengths(lens)
    ensures KraftUpTo(lens, k) <= Kraft(lens)
  {
    if lens != [] {
      KraftUpToBound(lens[..|lens| - 1], k);
    }
  }

  lemma {:induction false} WholeSplit(k: nat)
    requires k <= BMAX
    ensures Pow2(k) * Pow2(BMAX - k) == Whole
  {
    Pow2Add(k, BMAX - k);
  }

  /** A length is over-subscribed only when the whole set is. */
  lemma {:induction false} RoomAtLength(lens: seq<nat>, k: nat)
    requires ValidLengths(lens) && 1 <= k <= BMAX
    requires Kraft(lens) <= Whole
    ensures NextCode(lens, k) + Count(lens, k) <= Pow2(k)
  {
    var c, p, u := NextCode(lens, k) + Count(lens, k), Pow2(k), Pow2(BMAX - k);
    assert c * u <= p * u by {
      FilledIsKraft(lens, k);
      KraftUpToBound(lens, k);
      WholeSplit(k);
    }
    MulOrder(c, p, u);
  }

  /** Whether the set is over-subscribed, exact or incomplete is decided at the greatest length. */
  lemma {:induction false} KraftAtMax(lens: seq<nat>, g: nat)
    requires ValidLengths(lens) && 1 <= g <= BMAX
    requires forall i :: 0 <= i < |lens| ==> lens[i] <= g
    ensures Kraft(lens) <= Whole <==> NextCode(lens, g) + Count(lens, g) <= Pow2(g)
    ensures Kraft(lens) < Whole <==> NextCode(lens, g) + Count(lens, g) < Pow2(g)
  {
    var c, p, u := NextCode(lens, g) + Count(lens, g), Pow2(g), Pow2(BMAX - g);
    assert c * u == Kraft(lens) by {
      FilledIsKraft(lens, g);
      KraftAll(lens, g);
    }
    assert p * u == Whole by {
      WholeSplit(g);
    }
    MulOrder(c, p, u);
  }

  // ----- symbols of one length ----------------------------------------------

  /** The `a`-th symbol, counted from zero, among those of length `k`. */
  function NthSym(lens: seq<nat>, k: nat, a: nat): (sym: nat)
    requires a < Count(lens, k)
    ensures sym < |lens| && lens[sym] == k
  {
    var n := |lens| - 1;
    if lens[n] == k && a == Count(lens[..n], k) then n else NthSym(lens[..n], k, a)
  }

  lemma {:induction false} CountMonotone(lens: seq<nat>, k: nat, i: nat, j: nat)
    requires i <= j <= |lens|
    ensures Count(lens[..i], k) <= Count(lens[..j], k)
    decreases j
  {
    if i < j {
      assert lens[..j][..j - 1] == lens[..j - 1];
      CountMonotone(lens, k, i, j - 1);
    }
  }

  lemma {:induction false} CountPrefixStep(lens: seq<nat>, k: nat, i: nat)
    requires i < |lens|
    ensures Count(lens[..i + 1], k) == Count(lens[..i], k) + (if lens[i] == k then 1 else 0)
  {
    assert lens[..i + 1][..i] == lens[..i];
  }

  lemma {:induction false} RankBound(lens: seq<nat>, sym: nat)
    requires sym < |lens|
    ensures Rank(lens, sym) < Count(lens, lens[sym])
  {
    CountPrefixStep(lens, lens[sym], sym);
    CountMonotone(lens, lens[sym], sym + 1, |lens|);
    assert lens[..|lens|] == lens;
  }

  lemma {:induction false} RankOfNth(lens: seq<nat>, k: nat, a: nat)
    requires a < Count(lens, k)
    ensures Rank(lens, NthSym(lens, k, a)) == a
  {
    var n := |lens| - 1;
    if !(lens[n] == k && a == Count(lens[..n], k)) {
      RankOfNth(lens[..n], k, a);
      var sym := NthSym(lens[..n], k, a);
      assert lens[..n][..sym] == lens[..sym];
    }
  }

  lemma {:induction false} NthOfRank(lens: seq<nat>, sym: nat)
    requires sym < |lens|
    ensures Rank(lens, sym) < Count(lens, lens[sym])
    ensures NthSym(lens, lens[sym], Rank(lens, sym)) == sym
  {
    RankBound(lens, sym);
    var n := |lens| - 1;
    if sym < n {
      NthOfRank(lens[..n], sym);
      assert lens[..n][..sym] == lens[..sym];
    }
  }

  // ----- codes in code space ------------------------------------------------

  lemma {:induction false} NextCodeAfter(lens: seq<nat>, j: nat, k: nat)
    requires 1 <= j < k
    ensures NextCode(lens, k) >= (NextCode(lens, j) + Count(lens, j)) * Pow2(k - j)
    decreases k
  {
    if j + 1 < k {
      NextCodeAfter(lens, j, k - 1);
      var c := NextCode(lens, j) + Count(lens, j);
      MulDouble(c, Pow2(k - 1 - j));
    }
  }

  /** Two numbered codes of lengths `j` and `k` that start the same bits are the same code. */
  lemma {:induction false} PrefixFree(lens: seq<nat>, bits: seq<bool>, j: nat, k: nat)
    requires 1 <= j < k <= |bits|
    requires Msb(bits[..j]) < NextCode(lens, j) + Count(lens, j)
    ensures Msb(bits[..k]) < NextCode(lens, k)
  {
    assert bits[..k] == bits[..j] + bits[j..k];
    MsbConcat(bits[..j], bits[j..k]);
    MsbBound(bits[j..k]);
    MulOrder(Msb(bits[..j]), NextCode(lens, j) + Count(lens, j), Pow2(k - j));
    NextCodeAfter(lens, j, k);
  }

  lemma {:induction false} CodeValue(lens: seq<nat>, sym: nat)
    requires ValidLengths(lens) && Kraft(lens) <= Whole
    requires sym < |lens| && lens[sym] > 0
    ensures Msb(Code(lens, sym)) == CodeNumber(lens, sym)
    ensures NextCode(lens, lens[sym]) <= CodeNumber(lens, sym) < NextCode(lens, lens[sym]) + Count(lens, lens[sym])
  {
    RankBound(lens, sym);
    RoomAtLength(lens, lens[sym]);
    MsbFromMsb(CodeNumber(lens, sym), lens[sym]);
  }

  /** No bit string starts with the codes of two symbols. */
  lemma {:induction false} CodesArePrefixFree(lens: seq<nat>, bits: seq<bool>, s: nat, t: nat)
    requires ValidLengths(lens) && Kraft(lens) <= Whole
    requires s < |lens| && t < |lens|
    requires StartsWith(lens, s, bits) && StartsWith(lens, t, bits)
    ensures s == t
  {
    hide Kraft, NextCode, Count, Msb, Code;
    var j, k := lens[s], lens[t];
    CodeValue(lens, s);
    CodeValue(lens, t);
    assert bits[..j] == Code(lens, s) && bits[..k] == Code(lens, t);
    if j < k {
      PrefixFree(lens, bits, j, k);
    } else if k < j {
      PrefixFree(lens, bits, k, j);
    } else {
      NthOfRank(lens, s);
      NthOfRank(lens, t);
    }
  }

  // ----- counting -----------------------------------------------------------

  /** The number of symbols whose code is at least `k` bits long. */
  function CountFrom(lens: seq<nat>, k: nat): (r: nat)
    ensures r <= |lens|
  {
    if lens == [] then 0
    else CountFrom(lens[..|lens| - 1], k) + (if lens[|lens| - 1] >= k then 1 else 0)
  }

  lemma {:induction false} CountFromStep(lens: seq<nat>, k: nat)
    ensures CountFrom(lens, k) == Count(lens, k) + CountFrom(lens, k + 1)
  {
    if lens != [] {
      CountFromStep(lens[..|lens| - 1], k);
    }
  }

  /** A complete code has at least as many symbols as there are open codes at any length. */
  lemma {:induction false} OpenCodes(lens: seq<nat>, g: nat, k: nat)
    requires ValidLengths(lens) && 1 <= k <= g <= BMAX
    requires NextCode(lens, g) + Count(lens, g) == Pow2(g)
    ensures Pow2(k) <= NextCode(lens, k) + CountFrom(lens, k)
    decreases g - k
  {
    CountFromStep(lens, k);
    if k < g {
      OpenCodes(lens, g, k + 1);
    }
  }

  // ----- counts and sums of lengths put together ---------------------------------

  lemma {:induction false} CountAppend(lens: seq<nat>, x: nat, k: nat)
    ensures Count(lens + [x], k) == Count(lens, k) + (if x == k then 1 else 0)
  {
    var t := lens + [x];
    assert t[..|t| - 1] == lens;
  }

  lemma {:induction false} EmptyKraft()
    ensures Kraft([]) == 0
  {
  }

  lemma {:induction false} KraftAppend(lens: seq<nat>, x: nat)
    requires ValidLengths(lens) && x <= BMAX
    ensures ValidLengths(lens + [x]) && Kraft(lens + [x]) == Kraft(lens) + (if x == 0 then 0 else Pow2(BMAX - x))
  {
    hide Pow2;
    var t := lens + [x];
    assert t[..|t| - 1] == lens;
  }

  function Repeat(v: nat, n: nat): (s: seq<nat>)
    ensures |s| == n && forall i :: 0 <= i < n ==> s[i] == v
  {
    seq(n, _ => v)
  }

  lemma {:induction false} KraftRepeat(s: seq<nat>, v: nat, n: nat, w: nat)
    requires ValidLengths(s) && 1 <= v <= BMAX && w == Pow2(BMAX - v)
    ensures ValidLengths(s + Repeat(v, n)) && Kraft(s + Repeat(v, n)) == Kraft(s) + n * w
    decreases n
  {
    hide Pow2, Kraft;
    if n == 0 {
      assert s + Repeat(v, n) == s;
    } else {
      KraftRepeat(s, v, n - 1, w);
      var t := s + Repeat(v, n - 1);
      KraftAppend(t, v);
      assert s + Repeat(v, n) == t + [v];
      MulDistributes(n, 1, w);
    }
  }
}
