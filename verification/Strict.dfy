/**
  RFC 1951 without the leniency of the decoder: where the code-length code is a single code of one
  bit, the other bit stands for nothing.
 */
module Strict {
  import opened Bits
  import opened Canonical
  import opened HuftTables
  import opened Deflate

  // ----- the strict decoder -----------------------------------------------------------------------

  ghost function StrictLengths(input: seq<byte>, pos: nat, hist: seq<byte>, nl: nat, nd: nat, cl: seq<nat>, lens: seq<nat>): (r: Ending)
    requires Accepts(cl)
    ensures r.Done? ==> pos < r.pos <= 8 * |input|
    ensures hist <= r.hist
    decreases 8 * |input| - pos
  {
    if |lens| >= nl + nd then
      if |lens| > nl + nd || !AcceptsPair(lens[..nl], lens[nl..]) then Bad(hist)
      else Codes(input, pos, hist, lens[..nl], lens[nl..])
    else
      match ReadSymbol(input, pos, cl)
      case Truncated => Short(hist)
      case Invalid => Bad(hist)
      case Read(c, used) =>
        if c < 16 then StrictLengths(input, pos + used, hist, nl, nd, cl, lens + [c])
        else
          var extra, least := if c == 18 then 7 else c - 14, if c == 18 then 11 else 3;
          if pos + used + extra > 8 * |input| then Short(hist)
          else
            var n := least + Field(input, pos + used, extra);
            if |lens| + n > nl + nd || (c == 16 && lens == []) then Bad(hist)
            else
              var v := if c == 16 then lens[|lens| - 1] else 0;
              StrictLengths(input, pos + used + extra, hist, nl, nd, cl, lens + Repeat(v, n))
  }

  ghost function StrictBitLengths(input: seq<byte>, pos: nat, hist: seq<byte>, nl: nat, nd: nat, nc: nat, index: nat, cl: seq<nat>): (r: Ending)
    requires |cl| == 19 && index <= nc <= 19
    ensures r.Done? ==> pos < r.pos <= 8 * |input|
    ensures hist <= r.hist
    decreases nc - index
  {
    if index < nc then
      if pos + 3 > 8 * |input| then Short(hist)
      else StrictBitLengths(input, pos + 3, hist, nl, nd, nc, index + 1, cl[ORDER[index] := Field(input, pos, 3)])
    else if !Accepts(cl) then Bad(hist)
    else StrictLengths(input, pos, hist, nl, nd, cl, [])
  }

  ghost function StrictDynamic(input: seq<byte>, pos: nat, hist: seq<byte>): (r: Ending)
    ensures r.Done? ==> pos < r.pos <= 8 * |input|
    ensures hist <= r.hist
  {
    if pos + 14 > 8 * |input| then Short(hist)
    else
      var nl, nd, nc := Field(input, pos, 5), Field(input, pos + 5, 5), Field(input, pos + 10, 4);
      if nl > 29 || nd > 29 then Bad(hist)
      else StrictBitLengths(input, pos + 14, hist, 257 + nl, 1 + nd, 4 + nc, 0, seq(19, _ => 0))
  }

  ghost function StrictBlock(input: seq<byte>, pos: nat, hist: seq<byte>, kind: nat): (r: Ending)
    ensures r.Done? ==> pos <= r.pos <= 8 * |input|
    ensures hist <= r.hist
  {
    if kind == 2 then StrictDynamic(input, pos, hist) else Block(input, pos, hist, kind)
  }

  /** What a stream means by RFC 1951. */
  ghost function StrictBlocks(input: seq<byte>, pos: nat, hist: seq<byte>): (r: Ending)
    ensures r.Done? ==> pos <= r.pos <= 8 * |input|
    ensures hist <= r.hist
    decreases 8 * |input| - pos
  {
    if pos + 3 > 8 * |input| then Short(hist)
    else
      var last, kind := Field(input, pos, 1), Field(input, pos + 1, 2);
      var block := StrictBlock(input, pos + 3, hist, kind);
      if block.Done? && last == 0 then StrictBlocks(input, block.pos, block.hist) else block
  }

  // ----- complete codes read every bit pattern ------------------------------------------------------

  /** The length at which the codes in order of length first reach past `x` in code space. */
  lemma {:induction false} LengthAt(lens: seq<nat>, x: nat, g: nat) returns (k: nat)
    requires ValidLengths(lens) && 1 <= g <= BMAX && x < Filled(lens, g)
    ensures 1 <= k <= g && NextCode(lens, k) * Pow2(BMAX - k) <= x < Filled(lens, k)
    decreases g
  {
    k := g;
    if g > 1 {
      var c, u := NextCode(lens, g - 1) + Count(lens, g - 1), Pow2(BMAX - g);
      assert Pow2(BMAX - (g - 1)) == 2 * u;
      MulDouble(c, u);
      if x < Filled(lens, g - 1) {
        k := LengthAt(lens, x, g - 1);
      }
    }
  }

  /** Bits in the stretch of the codes of one length start with one of them. */
  lemma {:induction false} SymbolThere(lens: seq<nat>, bits: seq<bool>, k: nat)
    requires ValidLengths(lens) && |bits| == BMAX && 1 <= k <= BMAX
    requires NextCode(lens, k) <= Msb(bits[..k]) < NextCode(lens, k) + Count(lens, k)
    ensures exists sym :: 0 <= sym < |lens| && StartsWith(lens, sym, bits)
  {
    var a := Msb(bits[..k]) - NextCode(lens, k);
    var sym := NthSym(lens, k, a);
    RankOfNth(lens, k, a);
    assert CodeNumber(lens, sym) == Msb(bits[..k]);
    FromMsbOfMsb(bits[..k]);
    assert Code(lens, sym) == bits[..k];
    assert StartsWith(lens, sym, bits);
  }

  lemma {:induction false} PrefixValue(bits: seq<bool>, k: nat)
    requires |bits| == BMAX && k <= BMAX
    ensures Msb(bits[..k]) * Pow2(BMAX - k) <= Msb(bits) < (Msb(bits[..k]) + 1) * Pow2(BMAX - k)
  {
    var p, r := bits[..k], bits[k..];
    assert bits == p + r;
    MsbConcat(p, r);
    MsbBound(r);
    MulDistributes(Msb(p), 1, Pow2(BMAX - k));
  }

  /** Where all the bits are in code space, and where their first `k` are. */
  lemma {:induction false} InStretch(bits: seq<bool>, k: nat, a: nat, b: nat)
    requires |bits| == BMAX && k <= BMAX && a * Pow2(BMAX - k) <= Msb(bits) < b * Pow2(BMAX - k)
    ensures a <= Msb(bits[..k]) < b
  {
    hide Pow2, Msb;
    PrefixValue(bits, k);
    MulOrder(a, Msb(bits[..k]) + 1, Pow2(BMAX - k));
    MulOrder(Msb(bits[..k]), b, Pow2(BMAX - k));
  }

  /** A complete code has a symbol for any bits. */
  lemma {:induction false} CompleteReadsAll(lens: seq<nat>, bits: seq<bool>)
    requires ValidLengths(lens) && Kraft(lens) == Whole && |bits| == BMAX
    ensures Symbol(lens, bits).Sym?
  {
    hide Pow2, Msb, NextCode, Count, Kraft, Symbol, StartsWith;
    FilledIsKraft(lens, BMAX);
    KraftAll(lens, BMAX);
    MsbBound(bits);
    var k := LengthAt(lens, Msb(bits), BMAX);
    InStretch(bits, k, NextCode(lens, k), NextCode(lens, k) + Count(lens, k));
    SymbolThere(lens, bits, k);
  }

  /** With a complete code-length code there is no leniency. */
  lemma {:induction false} CompleteIsStrict(input: seq<byte>, pos: nat, cl: seq<nat>)
    requires Accepts(cl) && Kraft(cl) == Whole
    ensures ReadLength(input, pos, cl) == ReadSymbol(input, pos, cl) && ReadSymbol(input, pos, cl) != Invalid
  {
    CompleteReadsAll(cl, Peek(input, pos, BMAX));
  }

  // ----- a single code of one bit ---------------------------------------------------------------------

  lemma {:induction false} OneCode(cl: seq<nat>)
    requires Accepts(cl) && Kraft(cl) < Whole
    ensures Greatest(cl) == 1 && Count(cl, 1) == 1 && cl[Only(cl)] == 1
  {
    MaxLenCount(cl, 1);
    FilledIsKraft(cl, 1);
    KraftUpToBound(cl, 1);
    assert Whole == 2 * Pow2(BMAX - 1);
    MulOrder(2, Count(cl, 1), Pow2(BMAX - 1));
  }

  /** Whatever the bit, the decoder reads the one symbol there is. */
  lemma {:induction false} OneCodeReads(input: seq<byte>, pos: nat, cl: seq<nat>)
    requires Accepts(cl) && Kraft(cl) < Whole
    ensures ReadLength(input, pos, cl) == Truncated || ReadLength(input, pos, cl) == Read(Only(cl), 1)
    ensures ReadSymbol(input, pos, cl) == Invalid || ReadSymbol(input, pos, cl) == ReadLength(input, pos, cl)
  {
    OneCode(cl);
    match Symbol(cl, Peek(input, pos, BMAX))
    case NoSym =>
    case Sym(s) =>
      assert cl[s] == 1;
      RankBound(cl, s);
      NthOfRank(cl, s);
  }

  /** Lengths that a single symbol can give: all alike. */
  predicate Alike(lens: seq<nat>, c: nat) {
    if c == 16 then lens == [] else forall i :: 0 <= i < |lens| ==> lens[i] == if c < 16 then c else 0
  }

  lemma {:induction false} AlikeNotAccepted(v: nat, nl: nat)
    requires 257 <= nl <= 286
    ensures !Accepts(Repeat(v, nl))
  {
    var lit := Repeat(v, nl);
    if 1 <= v <= BMAX {
      var none: seq<nat> := [];
      EmptyKraft();
      KraftRepeat(none, v, nl, Pow2(BMAX - v));
      assert none + lit == lit;
      WholeSplit(v);
      NoPower(v, nl);
      MulOrder(nl, Pow2(v), Pow2(BMAX - v));
      MulOrder(Pow2(v), nl, Pow2(BMAX - v));
    }
  }

  lemma {:induction false} NoPower(v: nat, n: nat)
    requires 257 <= n <= 286 && 1 <= v <= BMAX
    ensures Pow2(v) != n && (v == 1 ==> Pow2(v) < n)
  {
    assert Pow2(4) == 16;
    Pow2Add(4, 4);
    Pow2Add(8, 1);
    if v <= 8 {
      Pow2Monotone(v, 8);
    } else {
      Pow2Monotone(9, v);
    }
  }

  lemma {:induction false} AlikeStep(lens: seq<nat>, c: nat, n: nat)
    ensures Alike(lens, c) && c < 16 ==> Alike(lens + [c], c)
    ensures Alike(lens, c) && c > 16 ==> Alike(lens + Repeat(0, n), c)
  {
  }

  /** Lengths coded by a single symbol are never those of an acceptable code. */
  lemma {:induction false} OneCodeIsBad(input: seq<byte>, pos: nat, hist: seq<byte>, nl: nat, nd: nat, cl: seq<nat>, lens: seq<nat>)
    requires Accepts(cl) && Kraft(cl) < Whole && 257 <= nl <= 286 && Alike(lens, Only(cl))
    ensures var r := Lengths(input, pos, hist, nl, nd, cl, lens); r == Bad(hist) || r == Short(hist)
    decreases 8 * |input| - pos
  {
    hide Accepts, ReadLength, ReadSymbol, Field, Kraft, Codes, Only;
    var c := Only(cl);
    if |lens| >= nl + nd {
      if |lens| == nl + nd {
        var v := if c < 16 then c else 0;
        assert lens[..nl] == Repeat(v, nl);
        AlikeNotAccepted(v, nl);
      }
    } else {
      OneCodeReads(input, pos, cl);
      if ReadLength(input, pos, cl) != Truncated {
        if c < 16 {
          AlikeStep(lens, c, 0);
          OneCodeIsBad(input, pos + 1, hist, nl, nd, cl, lens + [c]);
        } else if c > 16 {
          var extra, least := if c == 18 then 7 else c - 14, if c == 18 then 11 else 3;
          var n := least + Field(input, pos + 1, extra);
          AlikeStep(lens, c, n);
          if pos + 1 + extra <= 8 * |input| && |lens| + n <= nl + nd {
            OneCodeIsBad(input, pos + 1 + extra, hist, nl, nd, cl, lens + Repeat(0, n));
          }
        }
      }
    }
  }

  // ----- the two decoders ---------------------------------------------------------------------------------

  /** The same ending, or bad data that is only noticed to be incomplete. */
  predicate Same(strict: Ending, lenient: Ending) {
    lenient == strict || (strict.Bad? && lenient == Short(strict.hist))
  }

  lemma {:induction false} LengthsSame(input: seq<byte>, pos: nat, hist: seq<byte>, nl: nat, nd: nat, cl: seq<nat>, lens: seq<nat>)
    requires Accepts(cl) && 257 <= nl <= 286 && (Kraft(cl) < Whole ==> Alike(lens, Only(cl)))
    ensures Same(StrictLengths(input, pos, hist, nl, nd, cl, lens), Lengths(input, pos, hist, nl, nd, cl, lens))
    decreases 8 * |input| - pos
  {
    hide Accepts, AcceptsPair, ReadLength, ReadSymbol, Field, Kraft, Codes, Only;
    if |lens| < nl + nd {
      AcceptsKraft(cl);
      if Kraft(cl) == Whole {
        CompleteIsStrict(input, pos, cl);
      } else {
        OneCodeReads(input, pos, cl);
        OneCodeIsBad(input, pos, hist, nl, nd, cl, lens);
      }
      var read := ReadSymbol(input, pos, cl);
      if read.Read? {
        var c := read.value;
        if c < 16 {
          AlikeStep(lens, c, 0);
          LengthsSame(input, pos + read.used, hist, nl, nd, cl, lens + [c]);
        } else {
          var extra, least := if c == 18 then 7 else c - 14, if c == 18 then 11 else 3;
          var n := least + Field(input, pos + read.used, extra);
          if pos + read.used + extra <= 8 * |input| && |lens| + n <= nl + nd && !(c == 16 && lens == []) {
            AlikeStep(lens, c, n);
            var v := if c == 16 then lens[|lens| - 1] else 0;
            LengthsSame(input, pos + read.used + extra, hist, nl, nd, cl, lens + Repeat(v, n));
          }
        }
      }
    }
  }

  lemma {:induction false} AcceptsKraft(cl: seq<nat>)
    requires Accepts(cl)
    ensures ValidLengths(cl) && Kraft(cl) <= Whole
  {
  }

  lemma {:induction false} BitLengthsSame(input: seq<byte>, pos: nat, hist: seq<byte>, nl: nat, nd: nat, nc: nat, index: nat, cl: seq<nat>)
    requires |cl| == 19 && index <= nc <= 19 && 257 <= nl <= 286
    ensures Same(StrictBitLengths(input, pos, hist, nl, nd, nc, index, cl), BitLengths(input, pos, hist, nl, nd, nc, index, cl))
    decreases nc - index
  {
    hide Accepts, Lengths, StrictLengths, Field, Kraft, Only;
    if index < nc {
      if pos + 3 <= 8 * |input| {
        var v := Field(input, pos, 3);
        var next := cl[ORDER[index] := v];
        BitLengthsSame(input, pos + 3, hist, nl, nd, nc, index + 1, next);
      }
    } else if Accepts(cl) {
      AcceptsKraft(cl);
      LengthsSame(input, pos, hist, nl, nd, cl, []);
    }
  }

  lemma {:induction false} DynamicSame(input: seq<byte>, pos: nat, hist: seq<byte>)
    ensures Same(StrictDynamic(input, pos, hist), Dynamic(input, pos, hist))
  {
    hide BitLengths, StrictBitLengths, Field;
    if pos + 14 <= 8 * |input| {
      FourBits(input, pos + 10);
      var nl, nd, nc := Field(input, pos, 5), Field(input, pos + 5, 5), Field(input, pos + 10, 4);
      if nl <= 29 && nd <= 29 {
        BitLengthsSame(input, pos + 14, hist, 257 + nl, 1 + nd, 4 + nc, 0, seq(19, _ => 0));
      }
    }
  }

  lemma {:induction false} FourBits(input: seq<byte>, pos: nat)
    ensures Field(input, pos, 4) <= 15
  {
    assert Pow2(4) == 16;
  }

  /**
    The decoder's leniency does no harm: the two agree on every stream, except that bad data in the
    header of a dynamic block may be taken for incomplete data.
   */
  lemma {:induction false} BlocksSame(input: seq<byte>, pos: nat, hist: seq<byte>)
    ensures Same(StrictBlocks(input, pos, hist), Blocks(input, pos, hist))
    decreases 8 * |input| - pos
  {
    hide Dynamic, StrictDynamic, StoredLength, Codes, Field;
    if pos + 3 <= 8 * |input| {
      DynamicSame(input, pos + 3, hist);
      var block := StrictBlock(input, pos + 3, hist, Field(input, pos + 1, 2));
      if block.Done? && Field(input, pos, 1) == 0 {
        BlocksSame(input, block.pos, block.hist);
      }
    }
  }

  lemma {:induction false} OnlyFirst(cl: seq<nat>)
    requires |cl| == 19 && cl[0] == 1 && forall i :: 1 <= i < 19 ==> cl[i] == 0
    ensures Accepts(cl) && Kraft(cl) < Whole && Only(cl) == 0 && Code(cl, 0) == [false]
  {
    hide Code;
    FirstCode(cl);
    KraftOfOne(cl, 19);
    assert cl[..19] == cl;
    assert Whole == 2 * Pow2(BMAX - 1);
    assert cl[0] > 0;
    hide Kraft, Only, Pow2;
    OneCode(cl);
  }

  lemma {:induction false} FirstCode(cl: seq<nat>)
    requires cl != [] && cl[0] == 1
    ensures Code(cl, 0) == [false]
  {
    assert FromMsb(0, 1) == [false];
    assert Rank(cl, 0) == 0;
  }

  lemma {:induction false} KraftOfOne(cl: seq<nat>, n: nat)
    requires |cl| == 19 && cl[0] == 1 && (forall i :: 1 <= i < 19 ==> cl[i] == 0) && 1 <= n <= 19
    ensures ValidLengths(cl[..n]) && Kraft(cl[..n]) == Pow2(BMAX - 1)
  {
    hide Pow2;
    if n == 1 {
      EmptyKraft();
      KraftAppend([], 1);
      assert cl[..1] == [] + [1];
    } else {
      KraftOfOne(cl, n - 1);
      KraftAppend(cl[..n - 1], 0);
      assert cl[..n] == cl[..n - 1] + [0];
    }
  }

  /** A stream of one dynamic block, whose code-length code is a single code of one bit; the next bit is the other one. */
  const ODD: seq<byte> := [5, 0, 0, 36]

  lemma {:induction false} OddByte(i: nat)
    requires i < 8
    ensures ByteBit(5, i) == (i == 0 || i == 2) && !ByteBit(0, i) && ByteBit(36, i) == (i == 2 || i == 5)
  {
    assert Pow2(0) == 1 && Pow2(1) == 2 && Pow2(2) == 4 && Pow2(3) == 8;
    assert Pow2(4) == 16 && Pow2(5) == 32 && Pow2(6) == 64;
    hide Pow2;
    if i == 7 {
      Pow2Monotone(6, 7);
    }
  }

  lemma {:induction false} OddBits()
    ensures forall i :: 0 <= i < 32 ==> StreamBit(ODD, i) == (i == 0 || i == 2 || i == 26 || i == 29)
  {
    hide ByteBit;
    forall i | 0 <= i < 32
      ensures StreamBit(ODD, i) == (i == 0 || i == 2 || i == 26 || i == 29)
    {
      OddByte(i % 8);
    }
  }

  lemma {:induction false} ZeroField(pos: nat, n: nat)
    requires pos + n <= 32 && forall i :: pos <= i < pos + n ==> !StreamBit(ODD, i)
    ensures Field(ODD, pos, n) == 0
  {
    hide StreamBit;
    LsbZeros(n);
    assert Peek(ODD, pos, n) == Zeros(n);
  }

  lemma {:induction false} OddFields()
    ensures Field(ODD, 0, 1) == 1 && Field(ODD, 1, 2) == 2
    ensures Field(ODD, 3, 5) == 0 && Field(ODD, 8, 5) == 0 && Field(ODD, 13, 4) == 0
    ensures Field(ODD, 17, 3) == 0 && Field(ODD, 20, 3) == 0 && Field(ODD, 23, 3) == 0 && Field(ODD, 26, 3) == 1
  {
    OddBits();
    hide StreamBit;
    assert Peek(ODD, 0, 1) == [true] && Peek(ODD, 1, 2) == [false, true] && Peek(ODD, 26, 3) == [true] + Zeros(2);
    SmallFields();
    ZeroField(3, 5);
    ZeroField(8, 5);
    ZeroField(13, 4);
    ZeroField(17, 3);
    ZeroField(20, 3);
    ZeroField(23, 3);
  }

  lemma {:induction false} SmallFields()
    ensures Lsb([true]) == 1 && Lsb([false, true]) == 2 && Lsb([true] + Zeros(2)) == 1
  {
    LsbZeros(2);
    LsbConcat([true], Zeros(2));
    LsbConcat([false], [true]);
    assert Lsb([true]) == 1 && Lsb([false]) == 0 && Pow2(1) == 2;
    assert [false] + [true] == [false, true];
  }

  /** The lengths of the code-length code: only symbol 0 has one. */
  function OnlyZero(): (cl: seq<nat>)
    ensures |cl| == 19 && cl[0] == 1 && forall i :: 1 <= i < 19 ==> cl[i] == 0
  {
    seq(19, _ => 0)[0 := 1]
  }

  lemma {:induction false} OddHeader(hist: seq<byte>)
    requires Accepts(OnlyZero())
    ensures StrictBitLengths(ODD, 17, hist, 257, 1, 4, 0, seq(19, _ => 0)) == StrictLengths(ODD, 29, hist, 257, 1, OnlyZero(), [])
    ensures BitLengths(ODD, 17, hist, 257, 1, 4, 0, seq(19, _ => 0)) == Lengths(ODD, 29, hist, 257, 1, OnlyZero(), [])
  {
    hide Field, Accepts, StrictLengths, Lengths;
    OddFields();
    var none: seq<nat> := seq(19, _ => 0);
    assert none[ORDER[0] := 0] == none && none[ORDER[1] := 0] == none && none[ORDER[2] := 0] == none && none[ORDER[3] := 1] == OnlyZero();
    assert StrictBitLengths(ODD, 29, hist, 257, 1, 4, 4, OnlyZero()) == StrictLengths(ODD, 29, hist, 257, 1, OnlyZero(), []);
    assert StrictBitLengths(ODD, 26, hist, 257, 1, 4, 3, none) == StrictBitLengths(ODD, 29, hist, 257, 1, 4, 4, OnlyZero());
    assert StrictBitLengths(ODD, 23, hist, 257, 1, 4, 2, none) == StrictBitLengths(ODD, 26, hist, 257, 1, 4, 3, none);
    assert StrictBitLengths(ODD, 20, hist, 257, 1, 4, 1, none) == StrictBitLengths(ODD, 23, hist, 257, 1, 4, 2, none);
    assert BitLengths(ODD, 29, hist, 257, 1, 4, 4, OnlyZero()) == Lengths(ODD, 29, hist, 257, 1, OnlyZero(), []);
    assert BitLengths(ODD, 26, hist, 257, 1, 4, 3, none) == BitLengths(ODD, 29, hist, 257, 1, 4, 4, OnlyZero());
    assert BitLengths(ODD, 23, hist, 257, 1, 4, 2, none) == BitLengths(ODD, 26, hist, 257, 1, 4, 3, none);
    assert BitLengths(ODD, 20, hist, 257, 1, 4, 1, none) == BitLengths(ODD, 23, hist, 257, 1, 4, 2, none);
  }

  /** A stream that is bad by the RFC; the decoder reads the bit that is no code as the one symbol, and runs out of input. */
  lemma {:induction false} LenientExample(hist: seq<byte>)
    ensures StrictBlocks(ODD, 0, hist) == Bad(hist) && Blocks(ODD, 0, hist) == Short(hist)
  {
    hide Field, StrictBitLengths, BitLengths, Accepts, StrictLengths, Lengths, Code, Only, Kraft;
    OnlyFirst(OnlyZero());
    OddFields();
    OddHeader(hist);
    OddEnd(hist);
    assert StrictDynamic(ODD, 3, hist) == Bad(hist) && Dynamic(ODD, 3, hist) == Short(hist);
  }

  lemma {:induction false} OddEnd(hist: seq<byte>)
    requires Accepts(OnlyZero()) && Kraft(OnlyZero()) < Whole && Only(OnlyZero()) == 0 && Code(OnlyZero(), 0) == [false]
    ensures StrictLengths(ODD, 29, hist, 257, 1, OnlyZero(), []) == Bad(hist) && Lengths(ODD, 29, hist, 257, 1, OnlyZero(), []) == Short(hist)
  {
    var cl := OnlyZero();
    hide Accepts, Code, Only, Kraft, Lengths;
    FirstIsNoCode(cl);
    OneCode(cl);
    FewReads(cl, hist, 29, []);
  }

  lemma {:induction false} FirstIsNoCode(cl: seq<nat>)
    requires |cl| == 19 && cl[0] == 1 && (forall i :: 1 <= i < 19 ==> cl[i] == 0) && Code(cl, 0) == [false]
    ensures Symbol(cl, Peek(ODD, 29, BMAX)) == NoSym
  {
    OddBits();
    hide StreamBit;
    var bits := Peek(ODD, 29, BMAX);
    assert bits[0];
    assert !StartsWith(cl, 0, bits);
  }

  /** The input ends before there are as many symbols as a block needs. */
  lemma {:induction false} FewReads(cl: seq<nat>, hist: seq<byte>, pos: nat, lens: seq<nat>)
    requires Accepts(cl) && Kraft(cl) < Whole && Only(cl) == 0 && |lens| <= pos <= 32
    ensures Lengths(ODD, pos, hist, 257, 1, cl, lens) == Short(hist)
    decreases 32 - pos
  {
    hide Accepts, ReadLength, ReadSymbol, Kraft, Only, Codes;
    OneCodeReads(ODD, pos, cl);
    if ReadLength(ODD, pos, cl) != Truncated {
      FewReads(cl, hist, pos + 1, lens + [0]);
    }
  }
}
