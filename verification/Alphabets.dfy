/**
  What the symbols of DEFLATE stand for, apart from the tables that the decoder reads it from.
 */
module Alphabets {
  import opened Bits
  import opened Canonical
  import opened Deflate

  // ----- lengths and distances ---------------------------------------------------------------

  /** Symbol `i` and its extra bits can say `x`. */
  predicate Covers(base: seq<nat>, extra: seq<nat>, i: nat, x: nat)
    requires i < |base| && |base| == |extra|
  {
    base[i] <= x < base[i] + Pow2(extra[i])
  }

  /** The first `n` symbols cover the numbers from `lo` up to `hi`, one behind the other. */
  predicate Tiles(base: seq<nat>, extra: seq<nat>, n: nat, lo: nat, hi: nat) {
    && 0 < n <= |base| == |extra|
    && base[0] == lo
    && (forall i :: 0 <= i < n - 1 ==> base[i + 1] == base[i] + Pow2(extra[i]))
    && hi == base[n - 1] + Pow2(extra[n - 1])
  }

  lemma {:induction false} TilesApart(base: seq<nat>, extra: seq<nat>, n: nat, lo: nat, hi: nat, i: nat, j: nat)
    requires Tiles(base, extra, n, lo, hi) && i < j < n
    ensures base[i] + Pow2(extra[i]) <= base[j]
    decreases j
  {
    hide Pow2;
    assert base[j - 1 + 1] == base[j - 1] + Pow2(extra[j - 1]);
    if i < j - 1 {
      TilesApart(base, extra, n, lo, hi, i, j - 1);
    }
  }

  /** The last of the first `n` symbols that begin at or below `x`. */
  function SymbolFor(base: seq<nat>, x: nat, n: nat): (i: nat)
    requires 0 < n <= |base| && base[0] <= x
    ensures i < n && base[i] <= x && (i + 1 < n ==> x < base[i + 1])
    decreases n
  {
    if n == 1 || base[n - 1] <= x then n - 1 else SymbolFor(base, x, n - 1)
  }

  /** Each number is said by one symbol, and by no other. */
  lemma {:induction false} TilesOnce(base: seq<nat>, extra: seq<nat>, n: nat, lo: nat, hi: nat, x: nat)
    requires Tiles(base, extra, n, lo, hi) && lo <= x < hi
    ensures forall i :: 0 <= i < n ==> (Covers(base, extra, i, x) <==> i == SymbolFor(base, x, n))
  {
    hide Pow2;
    var s := SymbolFor(base, x, n);
    if s + 1 < n {
      assert base[s + 1] == base[s] + Pow2(extra[s]);
    }
    forall i | 0 <= i < n && Covers(base, extra, i, x)
      ensures i == s
    {
      if i < s {
        TilesApart(base, extra, n, lo, hi, i, s);
      } else if s < i {
        TilesApart(base, extra, n, lo, hi, s, i);
      }
    }
  }

  lemma {:induction false} LengthExtras()
    ensures |LENGTH_EXTRA| == 31
    ensures forall i :: 0 <= i < 28 ==> LENGTH_EXTRA[i] == if i < 8 then 0 else i / 4 - 1
  {
  }

  lemma {:induction false} LengthSteps()
    ensures |LENGTH_BASE| == 31
    ensures forall i :: 0 <= i < 27 ==> LENGTH_BASE[i + 1] == LENGTH_BASE[i] + Pow2(if i < 8 then 0 else i / 4 - 1)
  {
    SmallPowers();
    hide Pow2;
  }

  lemma {:induction false} LengthEnds()
    ensures |LENGTH_BASE| == |LENGTH_EXTRA| == 31 && LENGTH_BASE[0] == 3 && LENGTH_BASE[27] == 227 && Pow2(5) == 32
    ensures LENGTH_BASE[28] == 258 && LENGTH_EXTRA[28] == 0
  {
    SmallPowers();
  }

  /**
    Section 3.2.5: the length symbols 257 to 284 say the lengths from 3 to 258 without a gap, with one more
    extra bit every four symbols from 265 on; 285 says 258 and is the last.
   */
  lemma {:induction false} LengthCodes()
    ensures Tiles(LENGTH_BASE, LENGTH_EXTRA, 28, 3, 259)
    ensures LENGTH_BASE[285 - 257] == 258 && LENGTH_EXTRA[285 - 257] == 0 && NO_LENGTH == 286
    ensures forall i :: 0 <= i < 28 ==> LENGTH_EXTRA[i] == if i < 8 then 0 else i / 4 - 1
  {
    hide LENGTH_BASE, LENGTH_EXTRA;
    LengthExtras();
    LengthSteps();
    LengthEnds();
    hide Pow2;
  }

  lemma {:induction false} DistanceExtras()
    ensures |DIST_EXTRA| == 30
    ensures forall i :: 0 <= i < 30 ==> DIST_EXTRA[i] == if i < 4 then 0 else i / 2 - 1
  {
  }

  lemma {:induction false} DistanceSteps()
    ensures |DIST_BASE| == 30
    ensures forall i :: 0 <= i < 29 ==> DIST_BASE[i + 1] == DIST_BASE[i] + Pow2(if i < 4 then 0 else i / 2 - 1)
  {
    SmallPowers();
    hide Pow2;
  }

  lemma {:induction false} DistanceEnds()
    ensures |DIST_BASE| == 30 && DIST_BASE[0] == 1 && DIST_BASE[29] == 24577 && Pow2(13) == 8192
  {
    SmallPowers();
  }

  /** The thirty distance symbols say the distances from 1 to 32768, with one more extra bit every two symbols from 4 on. */
  lemma {:induction false} DistanceCodes()
    ensures Tiles(DIST_BASE, DIST_EXTRA, 30, 1, 32769) && |DIST_BASE| == 30
    ensures forall i :: 0 <= i < 30 ==> DIST_EXTRA[i] == if i < 4 then 0 else i / 2 - 1
  {
    hide DIST_BASE, DIST_EXTRA;
    DistanceExtras();
    DistanceSteps();
    DistanceEnds();
    hide Pow2;
  }

  /** Every length from 3 to 258 is said by a symbol, 258 by two, the others by one. */
  lemma {:induction false} LengthOnce(len: nat)
    requires 3 <= len <= 258
    ensures |LENGTH_BASE| == |LENGTH_EXTRA| == 31
    ensures forall i :: 0 <= i < 29 ==>
              (Covers(LENGTH_BASE, LENGTH_EXTRA, i, len) <==> i == SymbolFor(LENGTH_BASE, len, 29) || (len == 258 && i == 27))
  {
    LengthCodes();
    assert Pow2(0) == 1;
    hide Pow2;
    TilesOnce(LENGTH_BASE, LENGTH_EXTRA, 28, 3, 259, len);
  }

  /** What a symbol and its extra bits say is in range, and said by this symbol. */
  lemma {:induction false} TileSays(base: seq<nat>, extra: seq<nat>, n: nat, lo: nat, hi: nat, s: nat, v: nat)
    requires Tiles(base, extra, n, lo, hi) && s < n && v < Pow2(extra[s])
    ensures lo <= base[s] + v < hi && SymbolFor(base, base[s] + v, n) == s
  {
    hide Pow2, SymbolFor;
    if s < n - 1 {
      TilesApart(base, extra, n, lo, hi, s, n - 1);
    }
    if 0 < s {
      TilesApart(base, extra, n, lo, hi, 0, s);
    }
    TilesOnce(base, extra, n, lo, hi, base[s] + v);
    assert Covers(base, extra, s, base[s] + v);
  }

  // ----- the order of the code-length code -----------------------------------------------------

  /** The three repeats and zero come first; then the lengths from 8 on, alternately upwards and downwards. */
  lemma {:induction false} OrderIs()
    ensures |ORDER| == 19 && ORDER[..4] == [16, 17, 18, 0] && ORDER[18] == 15
    ensures forall k :: 0 <= k < 7 ==> ORDER[4 + 2 * k] == 8 + k && ORDER[5 + 2 * k] == 7 - k
  {
  }

  // ----- the fixed codes -------------------------------------------------------------------------

  lemma {:induction false} CountRepeat(lens: seq<nat>, v: nat, n: nat, k: nat)
    ensures Count(lens + Repeat(v, n), k) == Count(lens, k) + if v == k then n else 0
    decreases n
  {
    hide Count;
    if n == 0 {
      assert lens + Repeat(v, 0) == lens;
    } else {
      CountRepeat(lens, v, n - 1, k);
      CountAppend(lens + Repeat(v, n - 1), v, k);
      assert lens + Repeat(v, n) == lens + Repeat(v, n - 1) + [v];
    }
  }

  /** How many literals below `sym` have length `k`. */
  lemma {:induction false} FixedCount(sym: nat, k: nat)
    requires sym <= 288
    ensures |FIXED_LITERALS| == 288 && Count(FIXED_LITERALS[..sym], k) ==
      if k == 7 then Least(288, sym) - Least(256, sym) - (Least(288, sym) - Least(280, sym))
      else if k == 8 then Least(144, sym) + (sym - Least(280, sym))
      else if k == 9 then Least(256, sym) - Least(144, sym) else 0
  {
    var a, b, c, d := Least(144, sym), Least(256, sym) - Least(144, sym), Least(280, sym) - Least(256, sym), sym - Least(280, sym);
    var none: seq<nat> := [];
    CountRepeat(none, 8, a, k);
    CountRepeat(none + Repeat(8, a), 9, b, k);
    CountRepeat(none + Repeat(8, a) + Repeat(9, b), 7, c, k);
    CountRepeat(none + Repeat(8, a) + Repeat(9, b) + Repeat(7, c), 8, d, k);
    assert FIXED_LITERALS[..sym] == none + Repeat(8, a) + Repeat(9, b) + Repeat(7, c) + Repeat(8, d);
  }

  /** Section 3.2.6: the codes of the literals and lengths of a fixed block. */
  lemma {:induction false} FixedLiteral(sym: nat)
    requires sym < 288
    ensures |FIXED_LITERALS| == 288
    ensures FIXED_LITERALS[sym] == if sym < 144 then 8 else if sym < 256 then 9 else if sym < 280 then 7 else 8
    ensures CodeNumber(FIXED_LITERALS, sym) ==
      if sym < 144 then 48 + sym else if sym < 256 then 400 + (sym - 144) else if sym < 280 then sym - 256 else 192 + (sym - 280)
  {
    hide Count;
    FixedNext();
    FixedCount(sym, FIXED_LITERALS[sym]);
  }

  lemma {:induction false} FixedNext()
    ensures NextCode(FIXED_LITERALS, 7) == 0 && NextCode(FIXED_LITERALS, 8) == 48 && NextCode(FIXED_LITERALS, 9) == 400
  {
    var f := FIXED_LITERALS;
    assert f[..288] == f;
    forall k
      ensures Count(f, k) == if k == 7 then 24 else if k == 8 then 152 else if k == 9 then 112 else 0
    {
      FixedCount(288, k);
    }
    hide Count;
    NoneBelow(f, 7);
    assert NextCode(f, 8) == 2 * (NextCode(f, 7) + Count(f, 7));
    assert NextCode(f, 9) == 2 * (NextCode(f, 8) + Count(f, 8));
  }

  lemma {:induction false} NoneBelow(lens: seq<nat>, k: nat)
    requires forall j :: 1 <= j < k ==> Count(lens, j) == 0
    ensures NextCode(lens, k) == 0
  {
    if k > 1 {
      NoneBelow(lens, k - 1);
    }
  }

  /** The distances of a fixed block: five bits, the symbol itself. */
  lemma {:induction false} FixedDistance(sym: nat)
    requires sym < 30
    ensures |FIXED_DISTANCES| == 30 && FIXED_DISTANCES[sym] == 5 && CodeNumber(FIXED_DISTANCES, sym) == sym
  {
    var none: seq<nat> := [];
    forall k
      ensures Count(FIXED_DISTANCES, k) == (if k == 5 then 30 else 0)
    {
      CountRepeat(none, 5, 30, k);
      assert none + Repeat(5, 30) == FIXED_DISTANCES;
    }
    CountRepeat(none, 5, sym, 5);
    assert none + Repeat(5, sym) == FIXED_DISTANCES[..sym];
    hide Count;
    NoneBelow(FIXED_DISTANCES, 5);
  }

  lemma {:induction false} FixedKraft()
    ensures |FIXED_LITERALS| == 288 && |FIXED_DISTANCES| == 30
    ensures ValidLengths(FIXED_LITERALS) && Kraft(FIXED_LITERALS) == Whole
    ensures ValidLengths(FIXED_DISTANCES) && Kraft(FIXED_DISTANCES) < Whole
  {
    SmallPowers();
    WholeIs();
    EmptyKraft();
    hide Pow2, Kraft, Repeat;
    var none: seq<nat> := [];
    var a, b, c := Repeat(8, 144), Repeat(9, 112), Repeat(7, 24);
    KraftRepeat(none, 8, 144, 128);
    assert none + a == a;
    KraftRepeat(a, 9, 112, 64);
    KraftRepeat(a + b, 7, 24, 256);
    KraftRepeat(a + b + c, 8, 8, 128);
    KraftRepeat(none, 5, 30, 1024);
    assert none + FIXED_DISTANCES == FIXED_DISTANCES;
  }

  lemma {:induction false} WholeIs()
    ensures Whole == 32768
  {
    SmallPowers();
    Pow2Add(13, 2);
  }
}
