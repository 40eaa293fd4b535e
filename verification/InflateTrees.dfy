/**
  `inflate_trees_bits`, `inflate_trees_dynamic` and `inflate_trees_fixed`: the codes
  of a block, and which sets of lengths are accepted.
 */
module InflateTrees {
  import opened Bits
  import opened Canonical
  import opened HuftTables
  import opened Deflate
  import opened ZStatus
  import Alphabets
  import HuftBuild
  import HuftSpace
  import opened InflateCodes

  lemma {:induction false} GreatestIs(lens: seq<nat>, g: nat)
    requires MaxLen(lens, g)
    ensures Greatest(lens) == g
  {
  }

  /** `huft_build` says ZOk, on lengths not all zero, exactly for the sets that are accepted. */
  lemma {:induction false} OkIsAccepted(ret: Status, l: nat, m: nat, sh: Shape, low: nat)
    requires HuftBuild.Outcome(ret, l, m, sh, low)
    ensures ret == ZOk <==> Accepts(sh.lens)
  {
    GreatestIs(sh.lens, sh.g);
    var i :| 0 <= i < |sh.lens| && sh.lens[i] == low;
    assert sh.lens[i] > 0;
  }

  lemma {:induction false} UnusedIsNotAccepted(lens: seq<nat>)
    requires ValidLengths(lens)
    ensures HuftBuild.Unused(lens) ==> !Accepts(lens)
    ensures Kraft(lens) > Whole ==> !Accepts(lens)
  {
  }

  // ----- the code-length code ------------------------------------------------------

  /** One lookup in the table at `tb` reads a symbol of the code-length code. */
  ghost predicate LengthTable(tbl: seq<Huft>, tb: nat, bb: nat, cl: seq<nat>)
    requires Accepts(cl)
  {
    bb <= 7 && forall bits: seq<bool> | |bits| == BMAX :: LengthEntry(tbl, tb, bb, cl, bits)
  }

  ghost predicate LengthEntry(tbl: seq<Huft>, tb: nat, bb: nat, cl: seq<nat>, bits: seq<bool>)
    requires Accepts(cl) && bb <= 7 && |bits| == BMAX
  {
    && tb + Lsb(bits[..bb]) < |tbl|
    && var e := tbl[tb + Lsb(bits[..bb])];
       && 0 < e.bits <= bb
       && match Symbol(cl, bits)
          case Sym(s) => e.base == s && e.bits == cl[s]
          case NoSym => e.base == Only(cl) && e.bits == Greatest(cl)
  }

  lemma {:induction false} SingleIsLengthEntry(tbl: seq<Huft>, t: nat, sh: Shape, bits: seq<bool>)
    requires ValidShape(sh) && |sh.lens| == 19 && sh.alpha == CODELENGTHS && sh.l == sh.g <= 7 && Accepts(sh.lens)
    requires |bits| == BMAX && Decodes(tbl, t, sh.l, sh.lens, sh.alpha) && SingleBits(tbl, t, sh, bits)
    ensures LengthEntry(tbl, t, sh.l, sh.lens, bits)
  {
    hide Decodes, Accepts, Symbol, StaleBase, Only, Greatest, Walk, IsLink, StartsWith, Lsb, Kraft;
    StaleIsOnly(sh);
    FoundSymbol(tbl, t, sh.l, sh.lens, sh.alpha, bits);
    WalkLeaf(tbl, t, sh.l, bits);
    match Symbol(sh.lens, bits)
    case Sym(s) => assert BaseOf(sh.alpha, s) == s;
    case NoSym =>
  }

  lemma {:induction false} StaleIsOnly(sh: Shape)
    requires ValidShape(sh) && |sh.lens| == 19 && sh.alpha == CODELENGTHS && Accepts(sh.lens)
    ensures StaleBase(sh) == Only(sh.lens)
  {
    hide Accepts, Greatest, NthSym, Count, Kraft;
    GreatestIs(sh.lens, sh.g);
    MaxLenCount(sh.lens, sh.g);
    var s := NthSym(sh.lens, sh.g, Count(sh.lens, sh.g) - 1);
    assert BaseOf(sh.alpha, s) == s;
  }

  lemma {:induction false} SingleIsLengthTable(tbl: seq<Huft>, t: nat, sh: Shape)
    requires ValidShape(sh) && |sh.lens| == 19 && sh.alpha == CODELENGTHS && sh.l == sh.g <= 7 && Accepts(sh.lens)
    requires TablesFor(tbl, t, sh)
    ensures LengthTable(tbl, t, sh.l, sh.lens)
  {
    hide Decodes, Accepts;
    forall bits: seq<bool> | |bits| == BMAX
      ensures LengthEntry(tbl, t, sh.l, sh.lens, bits)
    {
      assert SingleBits(tbl, t, sh, bits);
      SingleIsLengthEntry(tbl, t, sh, bits);
    }
  }

  /** `inflate_trees_bits`. */
  method TreesBits(cl: seq<nat>, hufts: array<Huft>) returns (r: Status, bb: nat, tb: nat)
    requires |cl| == 19 && (forall i :: 0 <= i < 19 ==> cl[i] <= 7) && HuftBuild.MANY <= hufts.Length
    modifies hufts
    ensures r == ZOk || r == ZDataError
    ensures r == ZOk ==> Accepts(cl) && LengthTable(hufts[..], tb, bb, cl)
    ensures r == ZDataError ==> !Accepts(cl)
  {
    hide TablesFor, Decodes, Skips, Accepts, LengthTable;
    AlphabetsAreValid();
    UnusedIsNotAccepted(cl);
    var hn;
    ghost var sh, low;
    r, tb, bb, hn, sh, low := HuftBuild.Build(cl, CODELENGTHS, 7, hufts, 0);
    if r == ZMemError {
      SmallTable(cl, sh, bb, low);
      SingleTableNeverSkips(sh);
      HuftSpace.SingleSpace(sh);
    }
    if r == ZOk || r == ZBufError {
      if !HuftBuild.Unused(cl) {
        BitsTable(r, hufts[..hn], hufts[..], tb, bb, sh, low);
      }
      if r == ZBufError || bb == 0 {
        r := ZDataError;
      }
    }
  }

  lemma {:induction false} SmallTable(cl: seq<nat>, sh: Shape, bb: nat, low: nat)
    requires (forall i :: 0 <= i < |cl| ==> cl[i] <= 7) && ValidShape(sh) && sh.lens == cl && HuftBuild.MinLen(cl, low)
    requires bb == HuftBuild.Clamp(7, low, sh.g)
    ensures bb == sh.g <= 7 && Pow2(bb) <= 128
  {
    var i :| 0 <= i < |cl| && cl[i] == low;
    Pow2Monotone(bb, 7);
    assert Pow2(3) == 8 && Pow2(7) == 128;
  }

  lemma {:induction false} BitsTable(r: Status, part: seq<Huft>, tbl: seq<Huft>, tb: nat, bb: nat, sh: Shape, low: nat)
    requires HuftBuild.Outcome(r, bb, 7, sh, low) && |sh.lens| == 19 && sh.alpha == CODELENGTHS
    requires forall i :: 0 <= i < 19 ==> sh.lens[i] <= 7
    requires !Skips(sh) ==> TablesFor(part, tb, sh)
    requires part <= tbl
    ensures r == ZOk <==> Accepts(sh.lens)
    ensures r == ZOk ==> LengthTable(tbl, tb, bb, sh.lens)
    ensures bb >= 1 && r != ZStreamEnd
  {
    OkIsAccepted(r, bb, 7, sh, low);
    SmallTable(sh.lens, sh, bb, low);
    SingleTableNeverSkips(sh);
    if r == ZOk {
      SingleIsLengthTable(part, tb, sh);
      LengthTableExtends(part, tbl, tb, bb, sh.lens);
    }
  }

  lemma {:induction false} LengthTableExtends(part: seq<Huft>, tbl: seq<Huft>, tb: nat, bb: nat, cl: seq<nat>)
    requires Accepts(cl) && part <= tbl && LengthTable(part, tb, bb, cl)
    ensures LengthTable(tbl, tb, bb, cl)
  {
    hide Accepts;
    forall bits: seq<bool> | |bits| == BMAX
      ensures LengthEntry(tbl, tb, bb, cl, bits)
    {
      assert LengthEntry(part, tb, bb, cl, bits);
    }
  }

  // ----- literal/length and distance codes ----------------------------------------------

  lemma {:induction false} Doubled(m: nat)
    ensures Pow2(m + 1) == Pow2(m) + Pow2(m)
  {
  }

  /** A complete code of few enough symbols, or one with a single table, skips no level. */
  lemma {:induction false} NeverSkips(ret: Status, l: nat, m: nat, sh: Shape, low: nat)
    requires HuftBuild.Outcome(ret, l, m, sh, low) && ret == ZOk
    requires 1 <= m && |sh.lens| < Pow2(m) + Pow2(m)
    ensures !Skips(sh) && l <= m
  {
    hide Skips, Kraft, NextCode;
    Doubled(m);
    hide Pow2;
    if sh.l == sh.g {
      SingleTableNeverSkips(sh);
    }
    if Kraft(sh.lens) == Whole {
      ShortestCode(sh.lens, sh.g, low);
      if low > m {
        Pow2Monotone(m + 1, low);
      }
      if l < sh.g {
        CompleteNeverSkips(sh);
      }
    } else {
      var i :| 0 <= i < |sh.lens| && sh.lens[i] == low;
    }
  }

  /** The table space that an accepted code of at most `n` symbols takes, with tables of `m` bits. */
  function Enough(m: nat, n: nat): (r: nat)
    requires m > 0
  {
    Pow2(m) + HuftSpace.Slack(m, BMAX) + n
  }

  lemma {:induction false} AcceptedSpace(ret: Status, l: nat, m: nat, sh: Shape, low: nat)
    requires HuftBuild.Outcome(ret, l, m, sh, low) && ret == ZOk
    requires 1 <= m && |sh.lens| < Pow2(m) + Pow2(m)
    ensures HuftSpace.Space(sh) <= Enough(m, |sh.lens|)
  {
    hide Skips, HuftSpace.Slack, HuftSpace.Space, Kraft;
    NeverSkips(ret, l, m, sh, low);
    Pow2Monotone(l, m);
    if l == sh.g {
      HuftSpace.SingleSpace(sh);
    } else {
      HuftSpace.CompleteSpace(sh);
      HuftSpace.SlackMonotone(m, sh.g, BMAX);
    }
  }

  /** `huft_build` for one of the two codes of a dynamic block, which must not be wider than `m` bits. */
  method BuildCode(lens: seq<nat>, alpha: Alphabet, m: nat, hufts: array<Huft>, hn: nat)
    returns (r: Status, t: nat, l: nat, hn': nat)
    requires ValidLengths(lens) && ValidAlphabet(alpha, |lens|) && lens != [] && hn <= HuftBuild.MANY <= hufts.Length
    requires 1 <= m && |lens| < Pow2(m) + Pow2(m)
    modifies hufts
    ensures hn <= hn' <= hufts.Length && hufts[..hn] == old(hufts[..hn])
    ensures r != ZMemError ==> hn' <= HuftBuild.MANY
    ensures r == ZOk ==> hn' - hn <= Enough(m, |lens|)
    ensures r == ZMemError ==> (!Accepts(lens) && !HuftBuild.Unused(lens)) || hn + Enough(m, |lens|) > HuftBuild.MANY
    ensures HuftBuild.Unused(lens) ==> r == ZOk && l == 0
    ensures !HuftBuild.Unused(lens) && r == ZOk ==> Accepts(lens) && 1 <= l <= m && Decodes(hufts[..hn'], t, l, lens, alpha)
    ensures r == ZDataError || r == ZBufError ==> !Accepts(lens) && !HuftBuild.Unused(lens)
    ensures r != ZStreamEnd
  {
    hide TablesFor, Decodes, Skips, Accepts;
    UnusedIsNotAccepted(lens);
    ghost var sh, low;
    r, t, l, hn', sh, low := HuftBuild.Build(lens, alpha, m, hufts, hn);
    if !HuftBuild.Unused(lens) && r != ZDataError {
      ghost var verdict := HuftBuild.Verdict(sh);
      OkIsAccepted(verdict, l, m, sh, low);
      if verdict == ZOk {
        NeverSkips(verdict, l, m, sh, low);
        AcceptedSpace(verdict, l, m, sh, low);
      }
      if r == ZOk {
        TablesDecode(hufts[..hn'], t, sh);
      }
    }
  }

  lemma {:induction false} TablesDecode(tbl: seq<Huft>, t: nat, sh: Shape)
    requires ValidShape(sh) && TablesFor(tbl, t, sh)
    ensures Decodes(tbl, t, sh.l, sh.lens, sh.alpha)
  {
  }

  /** Both codes of a dynamic block, if accepted, fit into the table space together. */
  lemma {:induction false} SmallTables()
    ensures forall n, m :: n <= 286 && m <= 30 ==> Enough(9, n) + Enough(6, m) <= 1222 <= HuftBuild.MANY
    ensures forall n :: n <= 286 ==> Enough(9, n) <= HuftBuild.MANY
  {
    SmallPowers();
    HuftSpace.SmallSlack();
  }

  /** `inflate_trees_dynamic`. */
  method TreesDynamic(ll: seq<nat>, dl: seq<nat>, hufts: array<Huft>) returns (r: Status, t: Tables)
    requires ValidLengths(ll) && ValidLengths(dl) && 257 <= |ll| <= 286 && 1 <= |dl| <= 30 && HuftBuild.MANY <= hufts.Length
    modifies hufts
    ensures r == ZOk || r == ZDataError || r == ZMemError
    ensures r == ZOk ==> AcceptsPair(ll, dl) && TablesOK(t) && t.ll == ll && t.dl == dl
    ensures r == ZDataError || r == ZMemError ==> !AcceptsPair(ll, dl)
  {
    hide Decodes, Accepts;
    AlphabetsAreValid();
    SmallPowers();
    SmallTables();
    hide Enough;
    t := Tables([], 0, 0, 0, 0, ll, dl);
    var tl, bl, hn;
    r, tl, bl, hn := BuildCode(ll, LITERALS, 9, hufts, 0);
    if r != ZOk || bl == 0 {
      UnusedIsNotAccepted(ll);
      r := if r == ZMemError then ZMemError else ZDataError;
      return;
    }
    ghost var lit := hufts[..hn];
    var td, bd, hn';
    r, td, bd, hn' := BuildCode(dl, DISTANCES, 6, hufts, hn);
    if r != ZOk || (bd == 0 && |ll| > 257) {
      UnusedIsNotAccepted(dl);
      r := if r == ZMemError then ZMemError else ZDataError;
      return;
    }
    t := Tables(hufts[..], bl, bd, tl, td, ll, dl);
    assert lit <= hufts[..];
    DecodesExtends(lit, hufts[..], tl, bl, ll, LITERALS);
    if !HuftBuild.Unused(dl) {
      DecodesExtends(hufts[..hn'], hufts[..], td, bd, dl, DISTANCES);
    }
  }

  // ----- the fixed codes -----------------------------------------------------------------

  lemma {:induction false} FixedLongest()
    ensures MaxLen(FIXED_LITERALS, 9) && MaxLen(FIXED_DISTANCES, 5)
  {
    assert FIXED_LITERALS[144] == 9 && FIXED_DISTANCES[0] == 5;
  }

  /** `inflate_trees_fixed`, building the tables from the lengths of section 3.2.6 of RFC 1951. */
  method TreesFixed(mem: array<Huft>) returns (t: Tables)
    requires HuftBuild.MANY <= mem.Length
    modifies mem
    ensures TablesOK(t) && t.ll == FIXED_LITERALS && t.dl == FIXED_DISTANCES
  {
    hide Decodes, TablesFor, Skips, Kraft, HuftSpace.Space;
    AlphabetsAreValid();
    Alphabets.FixedKraft();
    FixedLongest();
    SmallPowers();
    var r, tl, bl, f, td, bd, f';
    ghost var sh, low;
    r, tl, bl, f, sh, low := HuftBuild.Build(FIXED_LITERALS, LITERALS, 9, mem, 0);
    FixedShape(FIXED_LITERALS, 9, 9, bl, sh, low);
    SingleTableNeverSkips(sh);
    HuftSpace.SingleSpace(sh);
    TablesDecode(mem[..f], tl, sh);
    ghost var lit := mem[..f];
    r, td, bd, f', sh, low := HuftBuild.Build(FIXED_DISTANCES, DISTANCES, 5, mem, f);
    FixedShape(FIXED_DISTANCES, 5, 5, bd, sh, low);
    SingleTableNeverSkips(sh);
    HuftSpace.SingleSpace(sh);
    TablesDecode(mem[..f'], td, sh);
    t := Tables(mem[..], bl, bd, tl, td, FIXED_LITERALS, FIXED_DISTANCES);
    assert lit <= mem[..];
    DecodesExtends(lit, mem[..], tl, bl, FIXED_LITERALS, LITERALS);
    DecodesExtends(mem[..f'], mem[..], td, bd, FIXED_DISTANCES, DISTANCES);
  }

  lemma {:induction false} FixedShape(lens: seq<nat>, m: nat, g: nat, l: nat, sh: Shape, low: nat)
    requires MaxLen(lens, g) && m == g && ValidShape(sh) && sh.lens == lens && HuftBuild.MinLen(lens, low)
    requires l == HuftBuild.Clamp(m, low, sh.g)
    ensures sh.g == g && l == g
  {
    var i :| 0 <= i < |lens| && lens[i] == low;
  }
}
