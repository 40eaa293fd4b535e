/**
  What becomes of a code that skips a level: the lookup of some bits reads an entry that
  `huft_build` has not written.
 */
module HuftSkip {
  import opened Bits
  import opened Canonical
  import opened HuftTables
  import opened HuftLayout

  /** The lookup of `bits`, in the way of LEN and DIST, comes to entry `cell` of the table space. */
  ghost predicate Consults(tbl: seq<Huft>, t: nat, need: nat, bits: seq<bool>, cell: nat)
    decreases |bits|
  {
    && need <= |bits|
    && var i := t + Lsb(bits[..need]);
       || i == cell
       || (i < |tbl| && IsLink(tbl[i]) && 0 < tbl[i].bits <= need
           && Consults(tbl, i + tbl[i].base, tbl[i].exop, bits[tbl[i].bits..], cell))
  }

  /** Some lookup from the root reads what was in memory before. */
  ghost predicate ReadsOld(was: seq<Huft>, tbl: seq<Huft>, t: nat, need: nat) {
    exists bits: seq<bool>, cell: nat :: |bits| == BMAX && Stale(was, tbl, cell) && Consults(tbl, t, need, bits, cell)
  }

  ghost predicate Stale(was: seq<Huft>, tbl: seq<Huft>, cell: nat) {
    cell < |tbl| && cell < |was| && tbl[cell] == was[cell]
  }

  // ----- a hole is consulted ------------------------------------------------------------------

  lemma {:induction false} ConsultsLink(tbl: seq<Huft>, t: nat, need: nat, bits: seq<bool>, cell: nat, i: nat, t': nat, width: nat)
    requires need <= |bits| && i == t + Lsb(bits[..need]) < |tbl| && 0 < need && i <= t' && 1 <= width <= BMAX
    requires tbl[i] == Huft(width, need, t' - i) && Consults(tbl, t', width, bits[need..], cell)
    ensures Consults(tbl, t, need, bits, cell)
  {
    SmallIsLink(width);
  }

  lemma {:induction false} DownChain(sh: Shape, tbl: seq<Huft>, tabs: Tabs, chain: seq<seq<bool>>, bits: seq<bool>, cell: nat, h: nat)
    requires ValidShape(sh) && Placed(sh, tabs) && Chained(sh, tbl, tabs, chain) && h < |chain|
    requires forall k :: 0 <= k < |chain| ==> chain[k] in tabs && chain[k] <= bits
    requires var p := chain[|chain| - 1]; Consults(tbl, tabs[p].start, tabs[p].width, bits[|p|..], cell)
    ensures var q := chain[h]; Consults(tbl, tabs[q].start, tabs[q].width, bits[|q|..], cell)
    decreases |chain| - h
  {
    if h < |chain| - 1 {
      DownChain(sh, tbl, tabs, chain, bits, cell, h + 1);
      hide Consults;
      var q, p := chain[h], chain[h + 1];
      assert Leads(sh, tbl, tabs, q, p);
      var rest := bits[|q|..];
      assert rest[..sh.l] == p[|q|..] && rest[sh.l..] == bits[|p|..];
      ConsultsLink(tbl, tabs[q].start, sh.l, rest, cell, Cell(tabs, q, p[|q|..]), tabs[p].start, tabs[p].width);
    }
  }

  lemma {:induction false} ChainOnBits(sh: Shape, tbl: seq<Huft>, tabs: Tabs, chain: seq<seq<bool>>, bits: seq<bool>, h: nat)
    requires Chained(sh, tbl, tabs, chain) && h < |chain| && chain[|chain| - 1] <= bits && chain[|chain| - 1] in tabs
    ensures chain[h] in tabs && chain[h] <= bits
    decreases |chain| - h
  {
    if h < |chain| - 1 {
      ChainOnBits(sh, tbl, tabs, chain, bits, h + 1);
      assert Leads(sh, tbl, tabs, chain[h], chain[h + 1]);
    }
  }

  /** Tables end within the space taken, and so do links. */
  lemma {:induction false} ChainedWithin(sh: Shape, tbl: seq<Huft>, tabs: Tabs, chain: seq<seq<bool>>, hn0: nat, hn: nat)
    requires Layout(sh, tabs, hn0, hn) && hn <= |tbl| && Chained(sh, tbl, tabs, chain)
    ensures Chained(sh, tbl[..hn], tabs, chain)
  {
    forall h | 0 <= h < |chain| - 1
      ensures Leads(sh, tbl[..hn], tabs, chain[h], chain[h + 1])
    {
      assert Leads(sh, tbl, tabs, chain[h], chain[h + 1]);
      CellInTable(tabs, chain[h], chain[h + 1][|chain[h]|..]);
    }
  }

  lemma {:induction false} ConsultsHere(tbl: seq<Huft>, t: nat, need: nat, bits: seq<bool>, cell: nat)
    requires need <= |bits| && t + Lsb(bits[..need]) == cell
    ensures Consults(tbl, t, need, bits, cell)
  {
  }

  lemma {:induction false} HoleConsulted(sh: Shape, tbl: seq<Huft>, tabs: Tabs, chain: seq<seq<bool>>, orig: seq<Huft>, code: seq<bool>, hn0: nat, hn: nat)
    requires ValidShape(sh) && Layout(sh, tabs, hn0, hn) && hn <= |tbl| && Hole(sh, tbl, tabs, chain, orig, code)
    requires [] in tabs && tabs[[]] == Tab(hn0, sh.l)
    ensures ReadsOld(orig, tbl[..hn], hn0, sh.l)
  {
    hide Leads, Fits, Chained, Consults;
    var p := chain[|chain| - 1];
    var n, u := tabs[p].width, HoleAt(sh, tabs[p]);
    var r := HoleBits(sh.l, n);
    var bits := p + r + Zeros(BMAX - |p| - n);
    var tbl' := tbl[..hn];
    HoleIndex(sh.l, n);
    assert bits[|p|..][..n] == r;
    ConsultsHere(tbl', tabs[p].start, n, bits[|p|..], u);
    ChainedWithin(sh, tbl, tabs, chain, hn0, hn);
    forall k | 0 <= k < |chain|
      ensures chain[k] in tabs && chain[k] <= bits
    {
      ChainOnBits(sh, tbl', tabs, chain, bits, k);
    }
    DownChain(sh, tbl', tabs, chain, bits, u, 0);
    assert bits[0..] == bits;
    Pow2Monotone(sh.l + 1, n);
    assert Stale(orig, tbl', u);
  }

  // ----- without a hole no level is skipped -----------------------------------------------------

  /** Codes of different lengths lie apart in code space. */
  lemma {:induction false} CodesApart(sh: Shape, c: seq<bool>, d: seq<bool>)
    requires ValidShape(sh) && IsCode(sh, c) && IsCode(sh, d) && |c| < |d|
    ensures Lo(c) + Size(|c|) <= Lo(d)
    ensures !(c <= d)
  {
    var n := |c|;
    MulOrder(Msb(c) + 1, NextCode(sh.lens, n) + Cap(sh, n), Size(n));
    MulDistributes(Msb(c), 1, Size(n));
    MulOrder(NextCode(sh.lens, |d|), Msb(d), Size(|d|));
    CodeAfter(sh, d, n);
    hide Lo, Size, IsCode, ValidShape, CapEnd;
    if c <= d {
      LoPrefix(c, d);
    }
  }

  lemma {:induction false} AlignedBack(v: nat, l: nat)
    requires l > 0 && v > 0 && v % l == 0
    ensures v >= l && (v - l) % l == 0
  {
    if v >= l {
      ModStep(v - l, l);
    } else {
      DivModUnique(v, l, 0, v);
    }
  }

  /** With every entry right and no table wider than `l`, there is a table at each level on the way to a code. */
  lemma {:induction false} OnTheWay(sh: Shape, tbl: seq<Huft>, tabs: Tabs, code: seq<bool>, v: nat)
    requires ValidShape(sh) && Placed(sh, tabs) && Built(sh, tbl, tabs, Whole) && [] in tabs
    requires forall p | p in tabs :: tabs[p].width <= sh.l
    requires IsCode(sh, code) && v < |code| && v % sh.l == 0
    ensures code[..v] in tabs
    decreases v
  {
    hide Built, Placed, IsCode, EntryOK;
    if v == 0 {
      assert code[..v] == [];
    } else {
      AlignedBack(v, sh.l);
      OnTheWay(sh, tbl, tabs, code, v - sh.l);
      NextOnTheWay(sh, tbl, tabs, code, v - sh.l);
    }
  }

  lemma {:induction false} NextOnTheWay(sh: Shape, tbl: seq<Huft>, tabs: Tabs, code: seq<bool>, u: nat)
    requires ValidShape(sh) && Placed(sh, tabs) && Built(sh, tbl, tabs, Whole)
    requires IsCode(sh, code) && u + sh.l < |code| && code[..u] in tabs && tabs[code[..u]].width <= sh.l
    ensures code[..u + sh.l] in tabs
  {
    hide IsCode, Lo, ValidShape;
    var p := code[..u];
    var n := tabs[p].width;
    var r := code[u..u + n];
    assert p + r == code[..u + n];
    LoBelowWhole(p + r);
    assert EntryOK(sh, tbl, tabs, p, r);
    hide Built;
    var e := tbl[tabs[p].start + Lsb(r)];
    if !IsLink(e) {
      assert (p + r)[..u + e.bits] == code[..u + e.bits];
      ShortLeaf(sh, code, u + e.bits, e);
    }
  }

  lemma {:induction false} ShortLeaf(sh: Shape, code: seq<bool>, n: nat, e: Huft)
    requires ValidShape(sh) && IsCode(sh, code) && n < |code|
    ensures !GoodLeaf(sh, code[..n], e.exop, e.base)
  {
    hide ValidShape, Lo;
    if IsCode(sh, code[..n]) {
      CodesApart(sh, code[..n], code);
    }
  }

  lemma {:induction false} InTurnNeverSkips(sh: Shape, tbl: seq<Huft>, tabs: Tabs)
    requires ValidShape(sh) && Placed(sh, tabs) && Built(sh, tbl, tabs, Whole) && [] in tabs
    requires forall p | p in tabs :: tabs[p].width <= sh.l && |p| <= BMAX && OpenedInTurn(sh, p)
    ensures !Skips(sh)
  {
    hide Built, Placed;
    forall code: seq<bool>, w: nat
      ensures !SkipAt(sh, code, w)
    {
      SkipContradicts(sh, tbl, tabs, code, w);
    }
  }

  lemma {:induction false} SkipContradicts(sh: Shape, tbl: seq<Huft>, tabs: Tabs, code: seq<bool>, w: nat)
    requires ValidShape(sh) && Placed(sh, tabs) && Built(sh, tbl, tabs, Whole) && [] in tabs
    requires forall p | p in tabs :: tabs[p].width <= sh.l && |p| <= BMAX && OpenedInTurn(sh, p)
    ensures !SkipAt(sh, code, w)
  {
    hide Built, Placed;
    if SkipAt(sh, code, w) {
      OnTheWay(sh, tbl, tabs, code, w);
      var p := code[..w];
      assert OpenedInTurn(sh, p);
      var c :| IsCode(sh, c) && |p| < |c| <= |p| + sh.l && |c| <= BMAX && Lo(c) == Lo(p);
      assert forall t :: w <= t < |code| ==> code[t] == code[w..][t - w];
      LoOfZeroTail(code, w);
      CodesApart(sh, c, code);
    }
  }

  // ----- what it means ----------------------------------------------------------------------------

  /** A lookup that comes to a cleared entry finds nothing. */
  lemma {:induction false} ClearedIsStuck(tbl: seq<Huft>, t: nat, need: nat, bits: seq<bool>, cell: nat)
    requires Consults(tbl, t, need, bits, cell) && cell < |tbl| && tbl[cell].bits == 0
    ensures Walk(tbl, t, need, bits) == Stuck
    decreases |bits|
  {
    var i := t + Lsb(bits[..need]);
    if i != cell {
      ClearedIsStuck(tbl, i + tbl[i].base, tbl[i].exop, bits[tbl[i].bits..], cell);
    }
  }

  /** In cleared memory, tables that read old entries do not decode the code. */
  lemma {:induction false} OldEntriesFail(was: seq<Huft>, tbl: seq<Huft>, t: nat, sh: Shape)
    requires ValidShape(sh) && ReadsOld(was, tbl, t, sh.l)
    requires forall i :: 0 <= i < |was| ==> was[i].bits == 0
    ensures !TablesFor(tbl, t, sh)
  {
    hide Consults;
    var bits: seq<bool>, cell: nat :| |bits| == BMAX && Stale(was, tbl, cell) && Consults(tbl, t, sh.l, bits, cell);
    ClearedIsStuck(tbl, t, sh.l, bits, cell);
    assert !DecodesBits(tbl, t, sh.l, sh.lens, sh.alpha, bits);
  }

  // ----- it happens -------------------------------------------------------------------------------

  /**
    One code of one bit and four of three bits are a complete set.  With tables of one bit the
    second level is skipped.
   */
  lemma {:induction false} SkipExample(alpha: Alphabet)
    requires ValidAlphabet(alpha, 5)
    ensures var sh := Shape([1, 3, 3, 3, 3], alpha, 3, 1); ValidShape(sh) && Kraft(sh.lens) == Whole && Skips(sh)
  {
    var lens: seq<nat> := [1, 3, 3, 3, 3];
    var sh := Shape(lens, alpha, 3, 1);
    ExampleKraft();
    ExampleNextCode();
    var code := [true, false, false];
    assert code[..2] == [true, false] && [true, false][..1] == [true];
    assert Msb([true]) == 1 && Msb([true, false]) == 2 && Msb(code) == 4;
    assert Pow2(3) == 8;
    assert lens[1] == 3;
    assert code[1..] == Zeros(2);
    assert SkipAt(sh, code, 1);
  }

  lemma {:induction false} ExampleKraft()
    ensures ValidLengths([1, 3, 3, 3, 3]) && Kraft([1, 3, 3, 3, 3]) == Whole
  {
    EmptyKraft();
    EighthsOfWhole();
    hide Kraft, Pow2;
    var a: seq<nat> := [];
    KraftAppend(a, 1);
    var b := a + [1];
    KraftAppend(b, 3);
    var c := b + [3];
    KraftAppend(c, 3);
    var d := c + [3];
    KraftAppend(d, 3);
    var e := d + [3];
    KraftAppend(e, 3);
    hide ValidLengths;
    assert e + [3] == [1, 3, 3, 3, 3];
  }

  lemma {:induction false} EighthsOfWhole()
    ensures Pow2(14) == 4 * Pow2(12) && Whole == 8 * Pow2(12)
  {
    assert Pow2(2) == 4 && Pow2(3) == 8;
    Pow2Add(12, 2);
    Pow2Add(12, 3);
  }

  lemma {:induction false} ExampleNextCode()
    ensures NextCode([1, 3, 3, 3, 3], 3) == 4
  {
    var a: seq<nat> := [];
    forall k | k == 1 || k == 2
      ensures Count([1, 3, 3, 3, 3], k) == if k == 1 then 1 else 0
    {
      CountAppend(a, 1, k);
      CountAppend([1], 3, k);
      CountAppend([1, 3], 3, k);
      CountAppend([1, 3, 3], 3, k);
      CountAppend([1, 3, 3, 3], 3, k);
      assert a + [1] == [1] && [1] + [3] == [1, 3] && [1, 3] + [3] == [1, 3, 3];
      assert [1, 3, 3] + [3] == [1, 3, 3, 3] && [1, 3, 3, 3] + [3] == [1, 3, 3, 3, 3];
    }
    hide Count;
  }
}
