/**
  The lookup tables of `inftrees.c` as values, and what makes them decode a code.

  A table is a block of 2^width consecutive entries of the table space.  The root
  table looks at the first bits of a code; a table reached through a link looks at
  the bits that follow a prefix of the code.  A bit string `prefix` therefore names
  a table, and `Tabs` records which tables exist.
 */
module HuftTables {
  import opened Bits
  import opened Canonical

  /** One `inflate_huft`: operation, bits to drop, and a value or an offset. */
  datatype Huft = Huft(exop: nat, bits: nat, base: nat)

  const INVALID: nat := 128 + 64

  /** The symbols of one code: the first `simple` stand for themselves, the others for a base and extra bits. */
  datatype Alphabet = Alphabet(simple: nat, base: seq<nat>, extra: seq<nat>)

  ghost predicate ValidAlphabet(alpha: Alphabet, symbols: nat) {
    && |alpha.base| == |alpha.extra|
    && symbols <= alpha.simple + |alpha.base|
    && forall i :: 0 <= i < |alpha.extra| ==> alpha.extra[i] <= 15 || alpha.extra[i] == 112
  }

  function ExopOf(alpha: Alphabet, sym: nat): (r: nat)
    requires sym < alpha.simple + |alpha.extra|
  {
    if sym < alpha.simple then (if sym < 256 then 0 else 32 + 64)
    else alpha.extra[sym - alpha.simple] + 16 + 64
  }

  function BaseOf(alpha: Alphabet, sym: nat): (r: nat)
    requires sym < alpha.simple + |alpha.base|
  {
    if sym < alpha.simple then sym else alpha.base[sym - alpha.simple]
  }

  /** `exop & bit` for a single bit of the operation byte. */
  predicate Has(exop: nat, bit: nat)
    requires bit > 0
  {
    (exop / bit) % 2 == 1
  }

  /** The test by which LEN and DIST recognise a link to another table. */
  predicate IsLink(e: Huft) {
    e.exop != 0 && !Has(e.exop, 16) && !Has(e.exop, 64)
  }

  // ----- looking a code up --------------------------------------------------

  datatype Found = Entry(exop: nat, base: nat, used: nat) | Stuck

  /**
    Looks up the entry for `bits`, `need` bits at a time, following links: the first
    lookup is in the table at `t`, and `used` counts every bit dropped on the way.
    No lookup drops more bits than it looked at, or leads to a wider table.
   */
  function Walk(tbl: seq<Huft>, t: nat, need: nat, bits: seq<bool>): (r: Found)
    decreases |bits|
  {
    if need > |bits| || t + Lsb(bits[..need]) >= |tbl| then Stuck
    else
      var i := t + Lsb(bits[..need]);
      var e := tbl[i];
      if e.bits == 0 || e.bits > need then Stuck
      else if !IsLink(e) then Entry(e.exop, e.base, e.bits)
      else if e.exop > need then Stuck
      else Dropped(Walk(tbl, i + e.base, e.exop, bits[e.bits..]), e.bits)
  }

  /** A lookup that goes on after `n` bits were dropped for a link. */
  function Dropped(f: Found, n: nat): (r: Found) {
    match f
    case Entry(x, b, used) => Entry(x, b, n + used)
    case Stuck => Stuck
  }

  lemma {:induction false} WalkLeaf(tbl: seq<Huft>, t: nat, need: nat, bits: seq<bool>)
    requires need <= |bits| && t + Lsb(bits[..need]) < |tbl|
    requires var e := tbl[t + Lsb(bits[..need])]; !IsLink(e) && 0 < e.bits <= need
    ensures var e := tbl[t + Lsb(bits[..need])]; Walk(tbl, t, need, bits) == Entry(e.exop, e.base, e.bits)
  {
  }

  lemma {:induction false} WalkLink(tbl: seq<Huft>, t: nat, need: nat, bits: seq<bool>, t': nat, rest: seq<bool>)
    requires need <= |bits| && t + Lsb(bits[..need]) < |tbl|
    requires var e := tbl[t + Lsb(bits[..need])];
             IsLink(e) && 0 < e.bits <= need && e.exop <= need && t' == t + Lsb(bits[..need]) + e.base && rest == bits[e.bits..]
    ensures var e := tbl[t + Lsb(bits[..need])];
            Walk(tbl, t, need, bits) == Dropped(Walk(tbl, t', e.exop, rest), e.bits)
  {
  }

  /**
    The tables at `t`, first looked up with `need` bits, decode exactly the code given
    by `lens`: bits that start with the code of a symbol end at that symbol's entry and
    drop exactly its length; any other bits end at an entry marked invalid.
   */
  ghost predicate Decodes(tbl: seq<Huft>, t: nat, need: nat, lens: seq<nat>, alpha: Alphabet)
    requires ValidAlphabet(alpha, |lens|)
  {
    forall bits: seq<bool> | |bits| == BMAX :: DecodesBits(tbl, t, need, lens, alpha, bits)
  }

  ghost predicate DecodesBits(tbl: seq<Huft>, t: nat, need: nat, lens: seq<nat>, alpha: Alphabet, bits: seq<bool>)
    requires ValidAlphabet(alpha, |lens|)
  {
    && Walk(tbl, t, need, bits).Entry?
    && (forall sym | 0 <= sym < |lens| && StartsWith(lens, sym, bits) ::
          Walk(tbl, t, need, bits) == Entry(ExopOf(alpha, sym), BaseOf(alpha, sym), lens[sym]))
    && ((forall sym | 0 <= sym < |lens| :: !StartsWith(lens, sym, bits)) ==>
          Walk(tbl, t, need, bits).exop == INVALID && MaxLen(lens, Walk(tbl, t, need, bits).used))
  }

  ghost predicate MaxLen(lens: seq<nat>, g: nat) {
    && (forall i :: 0 <= i < |lens| ==> lens[i] <= g)
    && g in lens
  }

  // ----- what has been built ------------------------------------------------

  datatype Tab = Tab(start: nat, width: nat)
  type Tabs = map<seq<bool>, Tab>

  /** What is being built: the lengths and their alphabet, the longest code, the bits per table. */
  datatype Shape = Shape(lens: seq<nat>, alpha: Alphabet, g: nat, l: nat)

  ghost predicate ValidShape(sh: Shape) {
    && ValidLengths(sh.lens) && ValidAlphabet(sh.alpha, |sh.lens|)
    && 1 <= sh.l <= sh.g <= BMAX
    && MaxLen(sh.lens, sh.g)
    && Kraft(sh.lens) <= Whole
  }

  /** How many codes of length `k` are laid out: at the greatest length dummies complete the set. */
  function Cap(sh: Shape, k: nat): (r: int) {
    if k == sh.g then Pow2(k) - NextCode(sh.lens, k) else Count(sh.lens, k)
  }

  /** Where in code space the codes laid out with length at most `k` end. */
  function CapEnd(sh: Shape, k: nat): (r: int)
    requires k <= BMAX
  {
    (NextCode(sh.lens, k) + Cap(sh, k)) * Pow2(BMAX - k)
  }

  /** `code` is one of the codes laid out, dummies included. */
  ghost predicate IsCode(sh: Shape, code: seq<bool>) {
    && 1 <= |code| <= sh.g
    && NextCode(sh.lens, |code|) <= Msb(code) < NextCode(sh.lens, |code|) + Cap(sh, |code|)
  }

  /**
    A level is skipped when the first code below some whole number of levels needs more
    than one further table: the table in between is then made wider than `l` bits.
   */
  ghost predicate Skips(sh: Shape)
    requires sh.l > 0
  {
    exists code: seq<bool>, w: nat :: SkipAt(sh, code, w)
  }

  ghost predicate SkipAt(sh: Shape, code: seq<bool>, w: nat)
    requires sh.l > 0
  {
    IsCode(sh, code) && sh.l <= w && w % sh.l == 0 && w + sh.l < |code| && code[w..] == Zeros(|code| - w)
  }

  /** The entry content that belongs to a code laid out. */
  ghost predicate GoodLeaf(sh: Shape, code: seq<bool>, exop: nat, base: nat)
    requires ValidShape(sh)
  {
    && IsCode(sh, code)
    && var k, a := |code|, Msb(code) - NextCode(sh.lens, |code|);
       if a < Count(sh.lens, k) then
         var sym := NthSym(sh.lens, k, a);
         exop == ExopOf(sh.alpha, sym) && base == BaseOf(sh.alpha, sym)
       else
         k == sh.g && exop == INVALID && (sh.l == sh.g ==> base == StaleBase(sh))
  }

  /** With a single table, dummy entries repeat the base of the last symbol laid out. */
  ghost function StaleBase(sh: Shape): (r: nat)
    requires ValidShape(sh)
  {
    MaxLenCount(sh.lens, sh.g);
    BaseOf(sh.alpha, NthSym(sh.lens, sh.g, Count(sh.lens, sh.g) - 1))
  }

  lemma {:induction false} MaxLenCount(lens: seq<nat>, g: nat)
    requires g in lens
    ensures Count(lens, g) > 0
  {
    var i :| 0 <= i < |lens| && lens[i] == g;
    RankBound(lens, i);
  }

  ghost predicate EntryOK(sh: Shape, tbl: seq<Huft>, tabs: Tabs, p: seq<bool>, r: seq<bool>)
    requires ValidShape(sh)
  {
    && p in tabs && |r| == tabs[p].width
    && var i := tabs[p].start + Lsb(r);
       i < |tbl| &&
       var e := tbl[i];
       if IsLink(e) then
         && e.bits == sh.l == |r|
         && p + r in tabs
         && e.exop == tabs[p + r].width <= sh.l
         && i + e.base == tabs[p + r].start
       else
         && 1 <= e.bits <= |r|
         && GoodLeaf(sh, (p + r)[..|p| + e.bits], e.exop, e.base)
  }

  /** Every entry that starts before `done` in code space is right. */
  ghost predicate Built(sh: Shape, tbl: seq<Huft>, tabs: Tabs, done: nat)
    requires ValidShape(sh) && Placed(sh, tabs)
  {
    forall p, r | p in tabs && |r| == tabs[p].width && Lo(p + r) < done :: EntryOK(sh, tbl, tabs, p, r)
  }

  ghost predicate Placed(sh: Shape, tabs: Tabs) {
    forall p | p in tabs :: tabs[p].width >= 1 && |p| + tabs[p].width <= sh.g <= BMAX
  }

  // ----- built tables decode ------------------------------------------------

  lemma {:induction false} LoBelowWhole(s: seq<bool>)
    requires |s| <= BMAX
    ensures Lo(s) < Whole
  {
    MsbBound(s);
    WholeSplit(|s|);
    MulOrder(Msb(s), Pow2(|s|), Pow2(BMAX - |s|));
  }

  /** After `w` bits, a lookup that found `f` is at the leaf of a code that starts `bits`. */
  ghost predicate AtLeaf(sh: Shape, bits: seq<bool>, w: nat, f: Found)
    requires ValidShape(sh)
  {
    f.Entry? && w + f.used <= sh.g && w + f.used <= |bits| && GoodLeaf(sh, bits[..w + f.used], f.exop, f.base)
  }

  lemma {:induction false} AtLeafDropped(sh: Shape, bits: seq<bool>, v: nat, w: nat, n: nat, f: Found)
    requires ValidShape(sh) && AtLeaf(sh, bits, v, f) && v == w + n
    ensures AtLeaf(sh, bits, w, Dropped(f, n))
  {
    assert w + (n + f.used) == v + f.used;
  }

  /** The lookup of the bits after `p` in the table of `p`. */
  ghost function WalkFrom(tbl: seq<Huft>, tabs: Tabs, p: seq<bool>, bits: seq<bool>): (r: Found)
    requires p in tabs && p <= bits
  {
    Walk(tbl, tabs[p].start, tabs[p].width, bits[|p|..])
  }

  lemma {:induction false} WalkAtLeaf(sh: Shape, tbl: seq<Huft>, tabs: Tabs, p: seq<bool>, r: seq<bool>, bits: seq<bool>)
    requires ValidShape(sh) && p + r <= bits && EntryOK(sh, tbl, tabs, p, r)
    requires !IsLink(tbl[tabs[p].start + Lsb(r)])
    ensures p <= bits && AtLeaf(sh, bits, |p|, WalkFrom(tbl, tabs, p, bits))
  {
    var e := tbl[tabs[p].start + Lsb(r)];
    assert bits[|p|..][..|r|] == r;
    assert (p + r)[..|p| + e.bits] == bits[..|p| + e.bits];
    WalkLeaf(tbl, tabs[p].start, |r|, bits[|p|..]);
  }

  lemma {:induction false} WalkAtLink(sh: Shape, tbl: seq<Huft>, tabs: Tabs, p: seq<bool>, r: seq<bool>, bits: seq<bool>)
    requires ValidShape(sh) && p + r <= bits && EntryOK(sh, tbl, tabs, p, r)
    requires IsLink(tbl[tabs[p].start + Lsb(r)])
    requires AtLeaf(sh, bits, |p + r|, WalkFrom(tbl, tabs, p + r, bits))
    ensures p <= bits && AtLeaf(sh, bits, |p|, WalkFrom(tbl, tabs, p, bits))
  {
    var q, rest := p + r, bits[|p|..];
    assert rest[..|r|] == r;
    assert rest[|r|..] == bits[|q|..];
    WalkLink(tbl, tabs[p].start, |r|, rest, tabs[q].start, bits[|q|..]);
    AtLeafDropped(sh, bits, |q|, |p|, |r|, WalkFrom(tbl, tabs, q, bits));
  }

  /** Once every entry is right, a walk from any table ends at the leaf of the code that starts the bits. */
  lemma {:induction false} WalkReachesLeaf(sh: Shape, tbl: seq<Huft>, tabs: Tabs, p: seq<bool>, bits: seq<bool>)
    requires ValidShape(sh) && Placed(sh, tabs) && Built(sh, tbl, tabs, Whole)
    requires p in tabs && p <= bits && |bits| == BMAX
    ensures AtLeaf(sh, bits, |p|, WalkFrom(tbl, tabs, p, bits))
    decreases BMAX - |p|
  {
    hide GoodLeaf, AtLeaf, Lsb, IsLink, Lo, Kraft, ValidLengths, Walk;
    var r := bits[|p|..|p| + tabs[p].width];
    assert p + r == bits[..|p| + |r|];
    LoBelowWhole(p + r);
    assert EntryOK(sh, tbl, tabs, p, r);
    if IsLink(tbl[tabs[p].start + Lsb(r)]) {
      WalkReachesLeaf(sh, tbl, tabs, p + r, bits);
      WalkAtLink(sh, tbl, tabs, p, r, bits);
    } else {
      WalkAtLeaf(sh, tbl, tabs, p, r, bits);
    }
  }

  /** A leaf for a real code carries the symbol whose code starts the bits, and no other symbol's does. */
  lemma {:induction false} LeafIsSymbol(sh: Shape, bits: seq<bool>, n: nat, exop: nat, base: nat)
    requires ValidShape(sh) && |bits| == BMAX && n <= BMAX
    requires GoodLeaf(sh, bits[..n], exop, base)
    requires Msb(bits[..n]) - NextCode(sh.lens, n) < Count(sh.lens, n)
    ensures exists sym :: 0 <= sym < |sh.lens| && StartsWith(sh.lens, sym, bits)
                          && exop == ExopOf(sh.alpha, sym) && base == BaseOf(sh.alpha, sym) && n == sh.lens[sym]
  {
    var a := Msb(bits[..n]) - NextCode(sh.lens, n);
    var sym := NthSym(sh.lens, n, a);
    RankOfNth(sh.lens, n, a);
    assert CodeNumber(sh.lens, sym) == Msb(bits[..n]);
    FromMsbOfMsb(bits[..n]);
    assert Code(sh.lens, sym) == bits[..n];
    assert StartsWith(sh.lens, sym, bits);
  }

  /** A dummy leaf means that no symbol's code starts the bits. */
  lemma {:induction false} DummyHasNoSymbol(sh: Shape, bits: seq<bool>, sym: nat)
    requires ValidShape(sh) && |bits| == BMAX
    requires Msb(bits[..sh.g]) >= NextCode(sh.lens, sh.g) + Count(sh.lens, sh.g)
    requires sym < |sh.lens|
    ensures !StartsWith(sh.lens, sym, bits)
  {
    if StartsWith(sh.lens, sym, bits) {
      var k := sh.lens[sym];
      CodeValue(sh.lens, sym);
      assert bits[..k] == Code(sh.lens, sym);
      if k < sh.g {
        PrefixFree(sh.lens, bits, k, sh.g);
      }
    }
  }

  lemma {:induction false} BuiltDecodes(sh: Shape, tbl: seq<Huft>, tabs: Tabs)
    requires ValidShape(sh) && Placed(sh, tabs) && Built(sh, tbl, tabs, Whole)
    requires [] in tabs && tabs[[]].width == sh.l
    ensures Decodes(tbl, tabs[[]].start, sh.l, sh.lens, sh.alpha)
  {
    forall bits: seq<bool> | |bits| == BMAX
      ensures DecodesBits(tbl, tabs[[]].start, sh.l, sh.lens, sh.alpha, bits)
    {
      BuiltDecodesBits(sh, tbl, tabs, bits);
    }
  }

  lemma {:induction false} BuiltDecodesBits(sh: Shape, tbl: seq<Huft>, tabs: Tabs, bits: seq<bool>)
    requires ValidShape(sh) && Placed(sh, tabs) && Built(sh, tbl, tabs, Whole)
    requires [] in tabs && tabs[[]].width == sh.l && |bits| == BMAX
    ensures DecodesBits(tbl, tabs[[]].start, sh.l, sh.lens, sh.alpha, bits)
  {
    WalkReachesLeaf(sh, tbl, tabs, [], bits);
    assert bits[0..] == bits;
    assert AtLeaf(sh, bits, 0, Walk(tbl, tabs[[]].start, sh.l, bits));
    var f := Walk(tbl, tabs[[]].start, sh.l, bits);
    var n := f.used;
    if Msb(bits[..n]) - NextCode(sh.lens, n) < Count(sh.lens, n) {
      LeafIsSymbol(sh, bits, n, f.exop, f.base);
      forall sym | 0 <= sym < |sh.lens| && StartsWith(sh.lens, sym, bits)
        ensures f == Entry(ExopOf(sh.alpha, sym), BaseOf(sh.alpha, sym), sh.lens[sym])
      {
        var other :| 0 <= other < |sh.lens| && StartsWith(sh.lens, other, bits)
                     && f.exop == ExopOf(sh.alpha, other) && f.base == BaseOf(sh.alpha, other) && n == sh.lens[other];
        CodesArePrefixFree(sh.lens, bits, sym, other);
      }
    } else {
      forall sym | 0 <= sym < |sh.lens|
        ensures !StartsWith(sh.lens, sym, bits)
      {
        DummyHasNoSymbol(sh, bits, sym);
      }
    }
  }

  // ----- what `huft_build` delivers ---------------------------------------------

  /**
    The tables at `t` decode the code.  A single table holds no links, and its unused patterns
    carry the base of the last symbol.
   */
  ghost predicate TablesFor(tbl: seq<Huft>, t: nat, sh: Shape)
    requires ValidShape(sh)
  {
    && Decodes(tbl, t, sh.l, sh.lens, sh.alpha)
    && (sh.l == sh.g ==> forall bits: seq<bool> | |bits| == BMAX :: SingleBits(tbl, t, sh, bits))
  }

  ghost predicate SingleBits(tbl: seq<Huft>, t: nat, sh: Shape, bits: seq<bool>)
    requires ValidShape(sh) && |bits| == BMAX
  {
    && t + Lsb(bits[..sh.l]) < |tbl|
    && var e := tbl[t + Lsb(bits[..sh.l])];
       && !IsLink(e) && 0 < e.bits <= sh.l
       && ((forall sym | 0 <= sym < |sh.lens| :: !StartsWith(sh.lens, sym, bits)) ==> e.base == StaleBase(sh))
  }

  lemma {:induction false} BuiltTables(sh: Shape, tbl: seq<Huft>, tabs: Tabs)
    requires ValidShape(sh) && Placed(sh, tabs) && Built(sh, tbl, tabs, Whole)
    requires [] in tabs && tabs[[]].width == sh.l
    ensures TablesFor(tbl, tabs[[]].start, sh)
  {
    BuiltDecodes(sh, tbl, tabs);
    if sh.l == sh.g {
      forall bits: seq<bool> | |bits| == BMAX
        ensures SingleBits(tbl, tabs[[]].start, sh, bits)
      {
        BuiltSingle(sh, tbl, tabs, bits);
      }
    }
  }

  lemma {:induction false} BuiltSingle(sh: Shape, tbl: seq<Huft>, tabs: Tabs, bits: seq<bool>)
    requires ValidShape(sh) && Placed(sh, tabs) && Built(sh, tbl, tabs, Whole)
    requires [] in tabs && tabs[[]].width == sh.l == sh.g && |bits| == BMAX
    ensures SingleBits(tbl, tabs[[]].start, sh, bits)
  {
    hide Lsb, Kraft, ValidLengths, IsLink, StartsWith, Placed, Built, Msb, NextCode, Count;
    SingleEntry(sh, tbl, tabs, bits);
    var e := tbl[tabs[[]].start + Lsb(bits[..sh.l])];
    if Msb(bits[..e.bits]) - NextCode(sh.lens, e.bits) < Count(sh.lens, e.bits) {
      LeafIsSymbol(sh, bits, e.bits, e.exop, e.base);
    }
  }

  /** With a single table, every entry is a leaf. */
  lemma {:induction false} SingleEntry(sh: Shape, tbl: seq<Huft>, tabs: Tabs, bits: seq<bool>)
    requires ValidShape(sh) && Placed(sh, tabs) && Built(sh, tbl, tabs, Whole)
    requires [] in tabs && tabs[[]].width == sh.l == sh.g && |bits| == BMAX
    ensures var i := tabs[[]].start + Lsb(bits[..sh.l]);
            i < |tbl| && !IsLink(tbl[i]) && 0 < tbl[i].bits <= sh.l && GoodLeaf(sh, bits[..tbl[i].bits], tbl[i].exop, tbl[i].base)
  {
    hide Lo, Lsb, Kraft, ValidLengths, IsLink, GoodLeaf;
    var p: seq<bool> := [];
    var r := bits[..sh.l];
    assert p + r == r;
    LoBelowWhole(p + r);
    assert EntryOK(sh, tbl, tabs, p, r);
    var e := tbl[tabs[p].start + Lsb(r)];
    assert !IsLink(e);
    assert r[..e.bits] == bits[..e.bits];
  }

  /** A walk that ends within a part of the table space is the same in the whole of it. */
  lemma {:induction false} WalkExtends(part: seq<Huft>, whole: seq<Huft>, t: nat, need: nat, bits: seq<bool>)
    requires part <= whole && Walk(part, t, need, bits).Entry?
    ensures Walk(whole, t, need, bits) == Walk(part, t, need, bits)
    decreases |bits|
  {
    var i := t + Lsb(bits[..need]);
    var e := part[i];
    assert whole[i] == e;
    if IsLink(e) {
      WalkExtends(part, whole, i + e.base, e.exop, bits[e.bits..]);
    }
  }

  lemma {:induction false} DecodesExtends(part: seq<Huft>, whole: seq<Huft>, t: nat, need: nat, lens: seq<nat>, alpha: Alphabet)
    requires part <= whole && ValidAlphabet(alpha, |lens|) && Decodes(part, t, need, lens, alpha)
    ensures Decodes(whole, t, need, lens, alpha)
  {
    forall bits: seq<bool> | |bits| == BMAX
      ensures DecodesBits(whole, t, need, lens, alpha, bits)
    {
      assert DecodesBits(part, t, need, lens, alpha, bits);
      WalkExtends(part, whole, t, need, bits);
    }
  }

  // ----- when no level is skipped ------------------------------------------------

  lemma {:induction false} SingleTableNeverSkips(sh: Shape)
    requires ValidShape(sh) && sh.l == sh.g
    ensures !Skips(sh)
  {
  }

  /** A complete code with fewer than 2^(l+1) symbols skips no level. */
  lemma {:induction false} CompleteNeverSkips(sh: Shape)
    requires ValidShape(sh) && Kraft(sh.lens) == Whole && |sh.lens| < Pow2(sh.l + 1)
    ensures !Skips(sh)
  {
    forall code: seq<bool>, w: nat
      ensures !SkipAt(sh, code, w)
    {
      if SkipAt(sh, code, w) {
        SkipNeedsSymbols(sh, code, w);
      }
    }
  }

  /** A code that ends in zeros leaves room above it. */
  lemma {:induction false} ZeroTail(code: seq<bool>, w: nat)
    requires w <= |code| && code[w..] == Zeros(|code| - w)
    ensures Msb(code) + Pow2(|code| - w) <= Pow2(|code|)
  {
    var n, p := |code| - w, code[..w];
    assert code == p + Zeros(n);
    MsbConcat(p, Zeros(n));
    MsbZeros(n);
    MsbBound(p);
    MulOrder(Msb(p), Pow2(w), Pow2(n));
    Pow2Add(w, n);
  }

  lemma {:induction false} SkipFacts(sh: Shape, code: seq<bool>, w: nat)
    requires sh.l > 0 && SkipAt(sh, code, w)
    ensures 1 <= |code| <= sh.g && w + sh.l < |code| && code[w..] == Zeros(|code| - w)
    ensures NextCode(sh.lens, |code|) <= Msb(code) < NextCode(sh.lens, |code|) + Cap(sh, |code|)
  {
  }

  lemma {:induction false} SkipNeedsSymbols(sh: Shape, code: seq<bool>, w: nat)
    requires ValidShape(sh) && Kraft(sh.lens) == Whole && SkipAt(sh, code, w)
    ensures |sh.lens| >= Pow2(sh.l + 1)
  {
    hide Msb, Pow2, NextCode, Count, Kraft, SkipAt;
    SkipFacts(sh, code, w);
    var k, n := |code|, |code| - w;
    assert Pow2(k) <= NextCode(sh.lens, k) + |sh.lens| by {
      KraftAtMax(sh.lens, sh.g);
      OpenCodes(sh.lens, sh.g, k);
    }
    ZeroTail(code, w);
    Pow2Monotone(sh.l + 1, n);
  }

  /** The shortest code of a complete set is short. */
  lemma {:induction false} ShortestCode(lens: seq<nat>, g: nat, low: nat)
    requires ValidLengths(lens) && 1 <= low <= g <= BMAX && MaxLen(lens, g)
    requires Kraft(lens) == Whole && NextCode(lens, low) == 0
    ensures Pow2(low) <= |lens|
  {
    KraftAtMax(lens, g);
    OpenCodes(lens, g, low);
  }
}
