/**
  Laying codes out in order: the invariant of the table-filling loop of `huft_build`.

  The codes are produced in increasing order of code space.  `stack` names the tables
  on the path of the next code, root first; `pos` is where in code space it starts.
 */
module HuftLayout {
  import opened Bits
  import opened Canonical
  import opened HuftTables

  // ----- bit strings in code space ------------------------------------------

  function Size(n: nat): (r: nat)
    requires n <= BMAX
    ensures r > 0
  {
    Pow2(BMAX - n)
  }

  lemma {:induction false} LoConcat(p: seq<bool>, r: seq<bool>)
    requires |p| + |r| <= BMAX
    ensures Lo(p + r) == Lo(p) + Msb(r) * Size(|p| + |r|)
    ensures Lo(p + r) + Size(|p| + |r|) <= Lo(p) + Size(|p|)
  {
    var u := Size(|p| + |r|);
    MsbConcat(p, r);
    MulDistributes(Msb(p) * Pow2(|r|), Msb(r), u);
    Pow2Add(|r|, BMAX - |p| - |r|);
    MulAssociates(Msb(p), Pow2(|r|), u);
    MsbBound(r);
    MulOrder(Msb(r), Pow2(|r|), u);
  }

  lemma {:induction false} MulAssociates(a: int, b: int, c: int)
    ensures (a * b) * c == a * (b * c)
  {
  }

  lemma {:induction false} LoPrefix(p: seq<bool>, code: seq<bool>)
    requires p <= code && |code| <= BMAX
    ensures Lo(p) <= Lo(code)
    ensures Lo(code) + Size(|code|) <= Lo(p) + Size(|p|)
  {
    var r := code[|p|..];
    assert code == p + r;
    LoConcat(p, r);
    MulOrder(0, Msb(r), Size(|code|));
  }

  /** Bit strings of one length occupy disjoint stretches of code space. */
  lemma {:induction false} LoInjective(a: seq<bool>, b: seq<bool>)
    requires |a| == |b| <= BMAX
    requires Lo(a) < Lo(b) + Size(|b|) && Lo(b) < Lo(a) + Size(|a|)
    ensures a == b
  {
    var u := Size(|a|);
    MulOrder(Msb(a), Msb(b), u);
    MulOrder(Msb(b), Msb(a), u);
    MsbInjective(a, b);
  }

  /** A longer string that starts inside the stretch of `code` extends it. */
  lemma {:induction false} LoExtends(code: seq<bool>, q: seq<bool>)
    requires |code| <= |q| <= BMAX
    requires Lo(code) <= Lo(q) < Lo(code) + Size(|code|)
    ensures code <= q
  {
    var c := q[..|code|];
    LoPrefix(c, q);
    LoInjective(c, code);
  }

  /** A shorter string that starts inside the stretch of `code` is `code` without trailing zeros. */
  lemma {:induction false} LoShortens(code: seq<bool>, q: seq<bool>)
    requires |q| <= |code| <= BMAX
    requires Lo(code) <= Lo(q) < Lo(code) + Size(|code|)
    ensures q <= code && Lo(q) == Lo(code)
  {
    var n := |code| - |q|;
    var padded := q + Zeros(n);
    LoConcat(q, Zeros(n));
    MsbZeros(n);
    LoInjective(padded, code);
  }

  lemma {:induction false} LoOfZeroTail(code: seq<bool>, w: nat)
    requires w <= |code| <= BMAX
    requires forall t :: w <= t < |code| ==> !code[t]
    ensures Lo(code) == Lo(code[..w])
    ensures code[w..] == Zeros(|code| - w)
  {
    var n := |code| - w;
    assert code == code[..w] + code[w..];
    assert code[w..] == Zeros(n);
    MsbZeros(n);
    LoConcat(code[..w], code[w..]);
  }

  // ----- the codes laid out -------------------------------------------------

  lemma {:induction false} NextCodeScaled(lens: seq<nat>, k: nat)
    requires 1 <= k < BMAX
    ensures NextCode(lens, k + 1) * Size(k + 1) == (NextCode(lens, k) + Count(lens, k)) * Size(k)
  {
    assert Size(k) == 2 * Size(k + 1);
    MulDouble(NextCode(lens, k) + Count(lens, k), Size(k + 1));
  }

  lemma {:induction false} CapEndStep(sh: Shape, k: nat)
    requires 1 <= k < sh.g <= BMAX
    ensures CapEnd(sh, k + 1) == CapEnd(sh, k) + Cap(sh, k + 1) * Size(k + 1)
    ensures CapEnd(sh, k) == NextCode(sh.lens, k + 1) * Size(k + 1)
  {
    NextCodeScaled(sh.lens, k);
    MulDistributes(NextCode(sh.lens, k + 1), Cap(sh, k + 1), Size(k + 1));
  }

  lemma {:induction false} CapEndLast(sh: Shape)
    requires 1 <= sh.g <= BMAX
    ensures CapEnd(sh, sh.g) == Whole
  {
    WholeSplit(sh.g);
  }

  lemma {:induction false} CapNonNegative(sh: Shape, k: nat)
    requires ValidShape(sh) && 1 <= k <= sh.g
    ensures Cap(sh, k) >= Count(sh.lens, k)
  {
    RoomAtLength(sh.lens, k);
  }

  lemma {:induction false} CapEndMonotone(sh: Shape, j: nat, k: nat)
    requires ValidShape(sh) && 1 <= j <= k <= sh.g
    ensures CapEnd(sh, j) <= CapEnd(sh, k)
    decreases k
  {
    if j < k {
      CapEndMonotone(sh, j, k - 1);
      CapEndStep(sh, k - 1);
      CapNonNegative(sh, k);
      MulOrder(0, Cap(sh, k), Size(k));
    }
  }

  /** Codes shorter than the greatest length never use code space up. */
  lemma {:induction false} RoomBelowMax(sh: Shape, k: nat)
    requires ValidShape(sh) && 1 <= k < sh.g
    ensures CapEnd(sh, k) < Whole
  {
    CapEndMonotone(sh, k, sh.g - 1);
    CapEndStep(sh, sh.g - 1);
    CapEndLast(sh);
    CapNonNegative(sh, sh.g);
    MaxLenCount(sh.lens, sh.g);
    MulOrder(0, Cap(sh, sh.g), Size(sh.g));
  }

  // ----- tables in the table space ------------------------------------------

  ghost predicate Apart(s: Tab, t: Tab) {
    s.start + Pow2(s.width) <= t.start || t.start + Pow2(t.width) <= s.start
  }

  /** A table narrower than `l` bits has room for every code below it. */
  ghost predicate Fits(sh: Shape, p: seq<bool>, width: nat)
    requires |p| + width <= BMAX
  {
    width < sh.l ==> Lo(p) + Size(|p|) <= CapEnd(sh, |p| + width)
  }

  ghost predicate Layout(sh: Shape, tabs: Tabs, hn0: nat, hn: nat) {
    && Placed(sh, tabs)
    && (forall p | p in tabs :: hn0 <= tabs[p].start && tabs[p].start + Pow2(tabs[p].width) <= hn)
    && (forall p, q | p in tabs && q in tabs && p != q :: Apart(tabs[p], tabs[q]))
    && (forall p | p in tabs :: Fits(sh, p, tabs[p].width))
  }

  /** The bit at which the next table on the path starts. */
  function Depth(sh: Shape, stack: seq<seq<bool>>): (w: nat) {
    if stack == [] then 0 else |stack[|stack| - 1]| + sh.l
  }

  ghost predicate Aligned(n: nat, l: nat)
    requires l > 0
  {
    n % l == 0
  }

  lemma {:induction false} AlignedStep(n: nat, l: nat, n': nat)
    requires l > 0 && Aligned(n, l) && n' == n + l
    ensures Aligned(n', l)
  {
    ModStep(n, l);
  }

  ghost predicate Path(sh: Shape, tabs: Tabs, stack: seq<seq<bool>>, code: seq<bool>)
    requires sh.l > 0
  {
    && (stack != [] ==> stack[0] == [])
    && OnCode(sh, tabs, stack, code)
    && Steps(sh, tabs, stack)
    && (forall t :: Depth(sh, stack) <= t < |code| ==> !code[t])
    && AllOnStack(tabs, stack, code)
  }

  ghost predicate OnCode(sh: Shape, tabs: Tabs, stack: seq<seq<bool>>, code: seq<bool>)
    requires sh.l > 0
  {
    forall h :: 0 <= h < |stack| ==> stack[h] in tabs && stack[h] <= code && Aligned(|stack[h]|, sh.l)
  }

  ghost predicate Steps(sh: Shape, tabs: Tabs, stack: seq<seq<bool>>) {
    forall h :: 0 <= h < |stack| - 1 ==>
      && |stack[h + 1]| == |stack[h]| + sh.l
      && stack[h] in tabs && tabs[stack[h]].width >= sh.l
  }

  ghost predicate AllOnStack(tabs: Tabs, stack: seq<seq<bool>>, code: seq<bool>) {
    forall p | p in tabs && p <= code :: p in stack
  }

  ghost predicate LinkOK(sh: Shape, tbl: seq<Huft>, tabs: Tabs, parent: seq<bool>, child: seq<bool>)
    requires ValidShape(sh)
  {
    parent <= child && EntryOK(sh, tbl, tabs, parent, child[|parent|..])
  }

  ghost predicate Entries(sh: Shape, tbl: seq<Huft>, tabs: Tabs, stack: seq<seq<bool>>, done: nat)
    requires ValidShape(sh) && Placed(sh, tabs)
  {
    && (forall p | p in tabs :: tabs[p].width <= sh.l)
    && Built(sh, tbl, tabs, done)
    && LinksOK(sh, tbl, tabs, stack)
  }

  ghost predicate LinksOK(sh: Shape, tbl: seq<Huft>, tabs: Tabs, stack: seq<seq<bool>>)
    requires ValidShape(sh)
  {
    forall h :: 0 <= h < |stack| - 1 ==> LinkOK(sh, tbl, tabs, stack[h], stack[h + 1])
  }

  lemma {:induction false} LinksExtend(sh: Shape, tbl: seq<Huft>, tabs: Tabs, stack: seq<seq<bool>>, p: seq<bool>)
    requires ValidShape(sh) && LinksOK(sh, tbl, tabs, stack)
    requires stack != [] ==> LinkOK(sh, tbl, tabs, stack[|stack| - 1], p)
    ensures LinksOK(sh, tbl, tabs, stack + [p])
  {
  }

  lemma {:induction false} StackGrows(sh: Shape, tabs: Tabs, stack: seq<seq<bool>>, code: seq<bool>, i: nat, j: nat)
    requires sh.l > 0 && Path(sh, tabs, stack, code) && i <= j < |stack|
    ensures |stack[i]| + (j - i) <= |stack[j]|
    ensures i < j ==> |stack[i]| + sh.l <= |stack[j]|
    decreases j
  {
    if i < j {
      StackGrows(sh, tabs, stack, code, i, j - 1);
      assert |stack[j - 1 + 1]| == |stack[j - 1]| + sh.l;
    }
  }

  // ----- opening a table ----------------------------------------------------

  /** The next table on the path of `code` does not exist yet, and `code` is the first code in it. */
  lemma {:induction false} NextTableIsNew(sh: Shape, tabs: Tabs, stack: seq<seq<bool>>, code: seq<bool>)
    requires sh.l > 0 && Path(sh, tabs, stack, code) && Depth(sh, stack) < |code| <= BMAX
    ensures code[..Depth(sh, stack)] !in tabs
    ensures Lo(code[..Depth(sh, stack)]) == Lo(code)
  {
    var w := Depth(sh, stack);
    var p := code[..w];
    if p in tabs {
      assert p in stack;
      var h :| 0 <= h < |stack| && stack[h] == p;
      StackGrows(sh, tabs, stack, code, h, |stack| - 1);
      assert false;
    }
    LoOfZeroTail(code, w);
  }

  /** A code comes after all shorter ones. */
  lemma {:induction false} CodeAfter(sh: Shape, code: seq<bool>, n: nat)
    requires ValidShape(sh) && 1 <= |code| <= sh.g && NextCode(sh.lens, |code|) * Size(|code|) <= Lo(code)
    ensures 1 <= n < |code| ==> CapEnd(sh, n) <= Lo(code)
  {
    hide Lo, CapEnd, Size, NextCode, Kraft, ValidLengths;
    if 1 <= n < |code| {
      CapEndMonotone(sh, n, |code| - 1);
      CapEndStep(sh, |code| - 1);
    }
  }

  /** The table above is a full `l` bits wide: a narrower one has no code as long as `code`. */
  lemma {:induction false} ParentIsWide(sh: Shape, tabs: Tabs, hn0: nat, hn: nat, p: seq<bool>, code: seq<bool>)
    requires ValidShape(sh) && Layout(sh, tabs, hn0, hn)
    requires p in tabs && p <= code && |p| + sh.l < |code| <= sh.g
    requires NextCode(sh.lens, |code|) * Size(|code|) <= Lo(code)
    ensures tabs[p].width >= sh.l
  {
    var n := |p| + tabs[p].width;
    LayoutBounds(sh, tabs, hn0, hn, p);
    assert Fits(sh, p, tabs[p].width);
    CodeAfter(sh, code, n);
    hide Layout, Lo, CapEnd, Size, Kraft, ValidLengths;
    LoPrefix(p, code);
  }

  ghost predicate MayOpen(sh: Shape, tabs: Tabs, stack: seq<seq<bool>>, code: seq<bool>, width: nat)
    requires sh.l > 0
  {
    && Path(sh, tabs, stack, code)
    && Depth(sh, stack) < |code| <= sh.g <= BMAX
    && 1 <= width && Depth(sh, stack) + width <= sh.g
    && Fits(sh, code[..Depth(sh, stack)], width)
    && (stack != [] ==> tabs[stack[|stack| - 1]].width >= sh.l)
  }

  lemma {:induction false} OpenKeepsLayout(sh: Shape, tabs: Tabs, hn0: nat, hn: nat, stack: seq<seq<bool>>, code: seq<bool>, width: nat)
    requires sh.l > 0 && Layout(sh, tabs, hn0, hn) && hn0 <= hn && MayOpen(sh, tabs, stack, code, width)
    ensures Layout(sh, tabs[code[..Depth(sh, stack)] := Tab(hn, width)], hn0, hn + Pow2(width))
  {
  }

  lemma {:induction false} PushOnCode(sh: Shape, tabs: Tabs, stack: seq<seq<bool>>, code: seq<bool>, p: seq<bool>, t: Tab)
    requires sh.l > 0 && OnCode(sh, tabs, stack, code) && p <= code && Aligned(|p|, sh.l)
    ensures OnCode(sh, tabs[p := t], stack + [p], code)
  {
    hide Aligned;
  }

  lemma {:induction false} PushSteps(sh: Shape, tabs: Tabs, stack: seq<seq<bool>>, p: seq<bool>, t: Tab)
    requires Steps(sh, tabs, stack) && p !in tabs
    requires stack != [] ==>
               var top := stack[|stack| - 1]; |p| == |top| + sh.l && top in tabs && tabs[top].width >= sh.l
    ensures Steps(sh, tabs[p := t], stack + [p])
  {
  }

  lemma {:induction false} PushAll(tabs: Tabs, stack: seq<seq<bool>>, code: seq<bool>, p: seq<bool>, t: Tab)
    requires AllOnStack(tabs, stack, code)
    ensures AllOnStack(tabs[p := t], stack + [p], code)
  {
    var stack', tabs' := stack + [p], tabs[p := t];
    assert stack'[|stack|] == p;
    forall q | q in tabs' && q <= code
      ensures q in stack'
    {
      if q != p {
        assert q in stack;
      }
    }
  }

  lemma {:induction false} OpenKeepsPath(sh: Shape, tabs: Tabs, stack: seq<seq<bool>>, code: seq<bool>, width: nat, start: nat)
    requires sh.l > 0 && MayOpen(sh, tabs, stack, code, width)
    ensures var p := code[..Depth(sh, stack)];
            Path(sh, tabs[p := Tab(start, width)], stack + [p], code)
  {
    hide Fits, Steps, AllOnStack;
    var p := code[..Depth(sh, stack)];
    NextTableIsNew(sh, tabs, stack, code);
    if stack != [] {
      AlignedStep(|stack[|stack| - 1]|, sh.l, |p|);
    }
    PushOnCode(sh, tabs, stack, code, p, Tab(start, width));
    PushSteps(sh, tabs, stack, p, Tab(start, width));
    PushAll(tabs, stack, code, p, Tab(start, width));
    hide Aligned, OnCode;
  }

  lemma {:induction false} ModStep(a: nat, l: nat)
    requires l > 0
    ensures (a + l) % l == a % l
  {
    DivModUnique(a + l, l, a / l + 1, a % l);
  }

  // ----- entries of distinct tables do not meet ------------------------------

  ghost function Cell(tabs: Tabs, p: seq<bool>, r: seq<bool>): (i: nat)
    requires p in tabs
  {
    tabs[p].start + Lsb(r)
  }

  lemma {:induction false} CellInTable(tabs: Tabs, p: seq<bool>, r: seq<bool>)
    requires p in tabs && |r| == tabs[p].width
    ensures tabs[p].start <= Cell(tabs, p, r) < tabs[p].start + Pow2(tabs[p].width)
  {
    LsbBound(r);
  }

  lemma {:induction false} CellsDiffer(sh: Shape, tabs: Tabs, hn0: nat, hn: nat, p: seq<bool>, r: seq<bool>, q: seq<bool>, s: seq<bool>)
    requires Layout(sh, tabs, hn0, hn)
    requires p in tabs && |r| == tabs[p].width && q in tabs && |s| == tabs[q].width
    requires Cell(tabs, p, r) == Cell(tabs, q, s)
    ensures p == q && r == s
  {
    assert p != q ==> Apart(tabs[p], tabs[q]);
    CellInTable(tabs, p, r);
    CellInTable(tabs, q, s);
    LsbInjective(r, s);
  }

  /** An entry stays right while its own cell is kept and tables are only added. */
  lemma {:induction false} EntryKept(sh: Shape, tbl: seq<Huft>, tbl': seq<Huft>, tabs: Tabs, tabs': Tabs, p: seq<bool>, r: seq<bool>)
    requires ValidShape(sh) && EntryOK(sh, tbl, tabs, p, r)
    requires forall q | q in tabs :: q in tabs' && tabs'[q] == tabs[q]
    requires Cell(tabs, p, r) < |tbl'| && tbl'[Cell(tabs, p, r)] == tbl[Cell(tabs, p, r)]
    ensures EntryOK(sh, tbl', tabs', p, r)
  {
  }

  /** What opening a table writes: a link in the table above, if there is one. */
  ghost predicate LinkWritten(sh: Shape, tbl: seq<Huft>, tbl': seq<Huft>, tabs: Tabs, stack: seq<seq<bool>>, code: seq<bool>, hn: nat, width: nat)
    requires sh.l > 0 && MayOpen(sh, tabs, stack, code, width)
  {
    && |tbl'| == |tbl|
    && if stack == [] then tbl' == tbl
       else
         var top := stack[|stack| - 1];
         var i := Cell(tabs, top, code[|top|..Depth(sh, stack)]);
         && i < |tbl| && i <= hn
         && tbl' == tbl[i := Huft(width, sh.l, hn - i)]
  }

  /** An entry other than the one that takes the link stays right. */
  lemma {:induction false} OpenKeepsEntry(sh: Shape, tbl: seq<Huft>, tbl': seq<Huft>, tabs: Tabs, hn0: nat, hn: nat, stack: seq<seq<bool>>, code: seq<bool>, width: nat, q: seq<bool>, r: seq<bool>)
    requires ValidShape(sh) && Layout(sh, tabs, hn0, hn)
    requires MayOpen(sh, tabs, stack, code, width) && code[..Depth(sh, stack)] !in tabs
    requires LinkWritten(sh, tbl, tbl', tabs, stack, code, hn, width)
    requires EntryOK(sh, tbl, tabs, q, r)
    requires stack != [] ==>
               var top := stack[|stack| - 1];
               tabs[top].width == sh.l && (q != top || r != code[|top|..Depth(sh, stack)])
    ensures EntryOK(sh, tbl', tabs[code[..Depth(sh, stack)] := Tab(hn, width)], q, r)
  {
    hide Fits, GoodLeaf, Steps, AllOnStack, Aligned;
    EntryCell(sh, tbl, tabs, q, r);
    if stack != [] {
      var top := stack[|stack| - 1];
      var t := code[|top|..Depth(sh, stack)];
      if Cell(tabs, q, r) == Cell(tabs, top, t) {
        CellsDiffer(sh, tabs, hn0, hn, q, r, top, t);
      }
    }
    hide Path, Layout, EntryOK;
    EntryKept(sh, tbl, tbl', tabs, tabs[code[..Depth(sh, stack)] := Tab(hn, width)], q, r);
  }

  lemma {:induction false} EntryCell(sh: Shape, tbl: seq<Huft>, tabs: Tabs, q: seq<bool>, r: seq<bool>)
    requires ValidShape(sh) && EntryOK(sh, tbl, tabs, q, r)
    ensures q in tabs && |r| == tabs[q].width && Cell(tabs, q, r) < |tbl|
  {
  }

  lemma {:induction false} OpenKeepsBuilt(sh: Shape, tbl: seq<Huft>, tbl': seq<Huft>, tabs: Tabs, hn0: nat, hn: nat, stack: seq<seq<bool>>, code: seq<bool>, width: nat)
    requires ValidShape(sh) && Layout(sh, tabs, hn0, hn)
    requires MayOpen(sh, tabs, stack, code, width) && width <= sh.l
    requires Entries(sh, tbl, tabs, stack, Lo(code))
    requires LinkWritten(sh, tbl, tbl', tabs, stack, code, hn, width)
    ensures var tabs' := tabs[code[..Depth(sh, stack)] := Tab(hn, width)];
            Placed(sh, tabs') && Built(sh, tbl', tabs', Lo(code))
  {
    hide EntryOK, LinkWritten, Fits, Lo, LinksOK;
    var p := code[..Depth(sh, stack)];
    var tabs' := tabs[p := Tab(hn, width)];
    NextTableIsNew(sh, tabs, stack, code);
    forall q, r | q in tabs' && |r| == tabs'[q].width && Lo(q + r) < Lo(code)
      ensures EntryOK(sh, tbl', tabs', q, r)
    {
      if q == p {
        LoPrefix(p, p + r);
      } else {
        OpenKeepsBuiltEntry(sh, tbl, tbl', tabs, hn0, hn, stack, code, width, q, r);
      }
    }
  }

  lemma {:induction false} OpenKeepsBuiltEntry(sh: Shape, tbl: seq<Huft>, tbl': seq<Huft>, tabs: Tabs, hn0: nat, hn: nat, stack: seq<seq<bool>>, code: seq<bool>, width: nat, q: seq<bool>, r: seq<bool>)
    requires ValidShape(sh) && Layout(sh, tabs, hn0, hn) && MayOpen(sh, tabs, stack, code, width)
    requires Entries(sh, tbl, tabs, stack, Lo(code)) && LinkWritten(sh, tbl, tbl', tabs, stack, code, hn, width)
    requires code[..Depth(sh, stack)] !in tabs && Lo(code[..Depth(sh, stack)]) == Lo(code)
    requires q in tabs && |r| == tabs[q].width && |q + r| <= BMAX && Lo(q + r) < Lo(code)
    ensures EntryOK(sh, tbl', tabs[code[..Depth(sh, stack)] := Tab(hn, width)], q, r)
  {
    hide EntryOK, LinkWritten, Fits, Lo, LinksOK;
    assert EntryOK(sh, tbl, tabs, q, r);
    if stack != [] {
      var top := stack[|stack| - 1];
      assert top + code[|top|..Depth(sh, stack)] == code[..Depth(sh, stack)];
    }
    OpenKeepsEntry(sh, tbl, tbl', tabs, hn0, hn, stack, code, width, q, r);
  }

  lemma {:induction false} OpenKeepsOldLink(sh: Shape, tbl: seq<Huft>, tbl': seq<Huft>, tabs: Tabs, hn0: nat, hn: nat, stack: seq<seq<bool>>, code: seq<bool>, width: nat, h: nat)
    requires ValidShape(sh) && Layout(sh, tabs, hn0, hn)
    requires MayOpen(sh, tabs, stack, code, width)
    requires Entries(sh, tbl, tabs, stack, Lo(code))
    requires LinkWritten(sh, tbl, tbl', tabs, stack, code, hn, width)
    requires h + 1 < |stack|
    ensures LinkOK(sh, tbl', tabs[code[..Depth(sh, stack)] := Tab(hn, width)], stack[h], stack[h + 1])
  {
    hide EntryOK, LinkWritten, Fits, Lo, Built;
    NextTableIsNew(sh, tabs, stack, code);
    assert LinkOK(sh, tbl, tabs, stack[h], stack[h + 1]);
    StackGrows(sh, tabs, stack, code, h, |stack| - 1);
    OpenKeepsEntry(sh, tbl, tbl', tabs, hn0, hn, stack, code, width, stack[h], stack[h + 1][|stack[h]|..]);
  }

  lemma {:induction false} OpenAddsLink(sh: Shape, tbl: seq<Huft>, tbl': seq<Huft>, tabs: Tabs, hn: nat, stack: seq<seq<bool>>, code: seq<bool>, width: nat)
    requires ValidShape(sh) && stack != []
    requires MayOpen(sh, tabs, stack, code, width) && width <= sh.l
    requires tabs[stack[|stack| - 1]].width <= sh.l
    requires LinkWritten(sh, tbl, tbl', tabs, stack, code, hn, width)
    ensures var p := code[..Depth(sh, stack)];
            LinkOK(sh, tbl', tabs[p := Tab(hn, width)], stack[|stack| - 1], p)
  {
    var p := code[..Depth(sh, stack)];
    var top := stack[|stack| - 1];
    NextTableIsNew(sh, tabs, stack, code);
    NewLinkOK(sh, tbl', tabs[p := Tab(hn, width)], top, code[|top|..|p|], p, hn, width);
  }

  lemma {:induction false} OpenKeepsEntries(sh: Shape, tbl: seq<Huft>, tbl': seq<Huft>, tabs: Tabs, hn0: nat, hn: nat, stack: seq<seq<bool>>, code: seq<bool>, width: nat)
    requires ValidShape(sh) && Layout(sh, tabs, hn0, hn) && hn0 <= hn <= |tbl|
    requires MayOpen(sh, tabs, stack, code, width) && width <= sh.l
    requires Entries(sh, tbl, tabs, stack, Lo(code))
    requires LinkWritten(sh, tbl, tbl', tabs, stack, code, hn, width)
    ensures var p := code[..Depth(sh, stack)];
            var tabs' := tabs[p := Tab(hn, width)];
            Placed(sh, tabs') && Entries(sh, tbl', tabs', stack + [p], Lo(code))
  {
    var p := code[..Depth(sh, stack)];
    OpenKeepsBuilt(sh, tbl, tbl', tabs, hn0, hn, stack, code, width);
    forall h | 0 <= h < |stack| - 1
      ensures LinkOK(sh, tbl', tabs[p := Tab(hn, width)], stack[h], stack[h + 1])
    {
      OpenKeepsOldLink(sh, tbl, tbl', tabs, hn0, hn, stack, code, width, h);
    }
    if stack != [] {
      OpenAddsLink(sh, tbl, tbl', tabs, hn, stack, code, width);
    }
    LinksExtend(sh, tbl', tabs[p := Tab(hn, width)], stack, p);
  }

  lemma {:induction false} NewLinkOK(sh: Shape, tbl: seq<Huft>, tabs: Tabs, top: seq<bool>, t: seq<bool>, p: seq<bool>, hn: nat, width: nat)
    requires ValidShape(sh) && top in tabs && |t| == tabs[top].width == sh.l && p == top + t
    requires p in tabs && tabs[p] == Tab(hn, width) && 1 <= width <= sh.l
    requires Cell(tabs, top, t) < |tbl| && Cell(tabs, top, t) <= hn
    requires tbl[Cell(tabs, top, t)] == Huft(width, sh.l, hn - Cell(tabs, top, t))
    ensures LinkOK(sh, tbl, tabs, top, p)
  {
    assert p[|top|..] == t;
    SmallIsLink(width);
  }

  lemma {:induction false} SmallIsLink(width: nat)
    requires 1 <= width <= BMAX
    ensures IsLink(Huft(width, 0, 0))
  {
  }

  lemma {:induction false} LeafIsNoLink(alpha: Alphabet, symbols: nat, sym: nat)
    requires ValidAlphabet(alpha, symbols) && sym < symbols
    ensures forall bits, base :: !IsLink(Huft(ExopOf(alpha, sym), bits, base))
    ensures forall bits, base :: !IsLink(Huft(INVALID, bits, base))
  {
  }

  // ----- filling the entries of one code -------------------------------------

  /** The table at the end of the path is wide enough for the code being laid out. */
  lemma {:induction false} TopIsWideEnough(sh: Shape, tabs: Tabs, hn0: nat, hn: nat, stack: seq<seq<bool>>, code: seq<bool>)
    requires ValidShape(sh) && Layout(sh, tabs, hn0, hn) && Path(sh, tabs, stack, code)
    requires stack != [] && |code| <= Depth(sh, stack) && 1 <= |code| <= sh.g
    requires NextCode(sh.lens, |code|) * Size(|code|) <= Lo(code)
    ensures stack[|stack| - 1] in tabs
    ensures |code| <= |stack[|stack| - 1]| + tabs[stack[|stack| - 1]].width
  {
    var p := stack[|stack| - 1];
    assert p in tabs && p <= code;
    hide Path;
    FitsCode(sh, tabs, hn0, hn, p, code);
  }

  /** A table narrower than `l` bits has no code longer than it shows. */
  lemma {:induction false} FitsCode(sh: Shape, tabs: Tabs, hn0: nat, hn: nat, p: seq<bool>, code: seq<bool>)
    requires ValidShape(sh) && Layout(sh, tabs, hn0, hn) && p in tabs && p <= code && |code| <= |p| + sh.l && 1 <= |code| <= sh.g
    requires NextCode(sh.lens, |code|) * Size(|code|) <= Lo(code)
    ensures |code| <= |p| + tabs[p].width
  {
    var n := |p| + tabs[p].width;
    LayoutBounds(sh, tabs, hn0, hn, p);
    assert Fits(sh, p, tabs[p].width);
    CodeAfter(sh, code, n);
    hide Layout, Lo, CapEnd, Size, Kraft, ValidLengths;
    LoPrefix(p, code);
  }

  lemma {:induction false} LayoutPlaced(sh: Shape, tabs: Tabs, hn0: nat, hn: nat)
    requires Layout(sh, tabs, hn0, hn)
    ensures Placed(sh, tabs)
  {
  }

  lemma {:induction false} LayoutBounds(sh: Shape, tabs: Tabs, hn0: nat, hn: nat, p: seq<bool>)
    requires Layout(sh, tabs, hn0, hn) && p in tabs
    ensures tabs[p].width >= 1 && |p| + tabs[p].width <= sh.g
  {
  }

  /** Of the `z` entries from `q` on, every `f`-th from `s` has become `e`; nothing else has changed. */
  ghost predicate FilledEvery(tbl: seq<Huft>, tbl': seq<Huft>, q: nat, z: nat, f: nat, s: nat, e: Huft)
    requires f > 0
  {
    && |tbl'| == |tbl| && q + z <= |tbl|
    && forall i :: 0 <= i < |tbl| ==>
         tbl'[i] == if q <= i < q + z && OnStride(i, q, f, s) then e else tbl[i]
  }

  ghost predicate OnStride(i: int, q: nat, f: nat, s: nat)
    requires f > 0
  {
    (i - q) % f == s
  }

  /** What filling writes: every entry of the last table whose index continues with the rest of the code. */
  ghost predicate FilledTail(tbl: seq<Huft>, tbl': seq<Huft>, t: Tab, tail: seq<bool>, e: Huft) {
    |tail| <= t.width && FilledEvery(tbl, tbl', t.start, Pow2(t.width), Pow2(|tail|), Lsb(tail), e)
  }

  lemma {:induction false} FilledCell(tbl: seq<Huft>, tbl': seq<Huft>, tabs: Tabs, p: seq<bool>, r: seq<bool>, tail: seq<bool>, e: Huft)
    requires p in tabs && |r| == tabs[p].width && FilledTail(tbl, tbl', tabs[p], tail, e)
    ensures Cell(tabs, p, r) < |tbl|
    ensures tail <= r ==> tbl'[Cell(tabs, p, r)] == e
    ensures !(tail <= r) ==> tbl'[Cell(tabs, p, r)] == tbl[Cell(tabs, p, r)]
  {
    LsbBound(r);
    LsbSplit(r, |tail|);
    var short := r[..|tail|];
    var i := Cell(tabs, p, r);
    assert i - tabs[p].start == Lsb(r);
    assert OnStride(i, tabs[p].start, Pow2(|tail|), Lsb(tail)) <==> Lsb(short) == Lsb(tail);
    if Lsb(short) == Lsb(tail) {
      LsbInjective(short, tail);
    }
    if tail <= r {
      assert short == tail;
    }
  }

  /** An entry of a table off the end of the path is not touched. */
  lemma {:induction false} OtherCell(sh: Shape, tbl: seq<Huft>, tbl': seq<Huft>, tabs: Tabs, hn0: nat, hn: nat, p: seq<bool>, q: seq<bool>, r: seq<bool>, tail: seq<bool>, e: Huft)
    requires Layout(sh, tabs, hn0, hn) && hn <= |tbl|
    requires p in tabs && q in tabs && q != p && |r| == tabs[q].width && FilledTail(tbl, tbl', tabs[p], tail, e)
    ensures Cell(tabs, q, r) < |tbl| && tbl'[Cell(tabs, q, r)] == tbl[Cell(tabs, q, r)]
  {
    CellInTable(tabs, q, r);
    assert Apart(tabs[p], tabs[q]);
  }

  /** In terms of tables: exactly the entries of `p` that continue with `tail` have become `e`. */
  ghost predicate CellsFilled(tbl: seq<Huft>, tbl': seq<Huft>, tabs: Tabs, p: seq<bool>, tail: seq<bool>, e: Huft) {
    forall q, r | q in tabs && |r| == tabs[q].width :: CellFilled(tbl, tbl', tabs, p, tail, e, q, r)
  }

  ghost predicate CellFilled(tbl: seq<Huft>, tbl': seq<Huft>, tabs: Tabs, p: seq<bool>, tail: seq<bool>, e: Huft, q: seq<bool>, r: seq<bool>)
    requires q in tabs
  {
    && Cell(tabs, q, r) < |tbl| && Cell(tabs, q, r) < |tbl'|
    && tbl'[Cell(tabs, q, r)] == if q == p && tail <= r then e else tbl[Cell(tabs, q, r)]
  }

  lemma {:induction false} FilledTailCells(sh: Shape, tbl: seq<Huft>, tbl': seq<Huft>, tabs: Tabs, hn0: nat, hn: nat, p: seq<bool>, tail: seq<bool>, e: Huft)
    requires Layout(sh, tabs, hn0, hn) && hn <= |tbl|
    requires p in tabs && FilledTail(tbl, tbl', tabs[p], tail, e)
    ensures CellsFilled(tbl, tbl', tabs, p, tail, e)
  {
    forall q, r | q in tabs && |r| == tabs[q].width
      ensures CellFilled(tbl, tbl', tabs, p, tail, e, q, r)
    {
      if q == p {
        FilledCell(tbl, tbl', tabs, p, r, tail, e);
      } else {
        OtherCell(sh, tbl, tbl', tabs, hn0, hn, p, q, r, tail, e);
      }
    }
  }

  ghost predicate MayFill(sh: Shape, tbl: seq<Huft>, tbl': seq<Huft>, tabs: Tabs, hn0: nat, hn: nat, stack: seq<seq<bool>>, code: seq<bool>, e: Huft)
    requires ValidShape(sh)
  {
    && Layout(sh, tabs, hn0, hn) && hn <= |tbl'| == |tbl| && tbl'[hn..] == tbl[hn..]
    && Path(sh, tabs, stack, code) && stack != []
    && |code| <= Depth(sh, stack) && 1 <= |code| <= sh.g
    && (forall q | q in tabs :: |q| < |code|)
    && var p := stack[|stack| - 1];
       && |code| <= |p| + tabs[p].width
       && CellsFilled(tbl, tbl', tabs, p, code[|p|..], e)
       && e.bits == |code| - |p|
       && !IsLink(e) && GoodLeaf(sh, code, e.exop, e.base)
  }

  lemma {:induction false} LeafEntryOK(sh: Shape, tbl: seq<Huft>, tabs: Tabs, p: seq<bool>, r: seq<bool>, code: seq<bool>)
    requires ValidShape(sh) && p in tabs && |r| == tabs[p].width && Cell(tabs, p, r) < |tbl|
    requires var e := tbl[Cell(tabs, p, r)];
             && !IsLink(e) && 1 <= e.bits <= |r| && (p + r)[..|p| + e.bits] == code
             && GoodLeaf(sh, code, e.exop, e.base)
    ensures EntryOK(sh, tbl, tabs, p, r)
  {
  }

  lemma {:induction false} FillLeaf(sh: Shape, tbl: seq<Huft>, tbl': seq<Huft>, tabs: Tabs, hn0: nat, hn: nat, stack: seq<seq<bool>>, code: seq<bool>, e: Huft, r: seq<bool>)
    requires ValidShape(sh) && MayFill(sh, tbl, tbl', tabs, hn0, hn, stack, code, e)
    requires var p := stack[|stack| - 1]; |r| == tabs[p].width && code <= p + r
    ensures EntryOK(sh, tbl', tabs, stack[|stack| - 1], r)
  {
    hide Layout, GoodLeaf, Kraft, ValidLengths, EntryOK, Steps, AllOnStack, Aligned, IsLink;
    var p := stack[|stack| - 1];
    var tail := code[|p|..];
    assert code == p + tail;
    assert tail == r[..|tail|] by {
      assert (p + r)[|p|..|code|] == tail;
      assert (p + r)[|p|..|code|] == r[..|tail|];
    }
    assert CellFilled(tbl, tbl', tabs, p, tail, e, p, r);
    assert (p + r)[..|p| + e.bits] == code;
    LeafEntryOK(sh, tbl', tabs, p, r, code);
  }

  /** A right entry stays right: filling only touches entries that start inside the code. */
  lemma {:induction false} FillKeeps(sh: Shape, tbl: seq<Huft>, tbl': seq<Huft>, tabs: Tabs, hn0: nat, hn: nat, stack: seq<seq<bool>>, code: seq<bool>, e: Huft, q: seq<bool>, r: seq<bool>)
    requires ValidShape(sh) && MayFill(sh, tbl, tbl', tabs, hn0, hn, stack, code, e)
    requires EntryOK(sh, tbl, tabs, q, r)
    requires q == stack[|stack| - 1] ==> !(code <= q + r)
    ensures EntryOK(sh, tbl', tabs, q, r)
  {
    var p := stack[|stack| - 1];
    var tail := code[|p|..];
    assert code == p + tail;
    assert tail <= r ==> code <= p + r;
    assert CellFilled(tbl, tbl', tabs, p, tail, e, q, r);
    EntryKept(sh, tbl, tbl', tabs, tabs, q, r);
  }

  /** An entry that starts inside the code is the leaf of the code or a link on its path. */
  lemma {:induction false} FillCoversNew(sh: Shape, tbl: seq<Huft>, tbl': seq<Huft>, tabs: Tabs, hn0: nat, hn: nat, stack: seq<seq<bool>>, code: seq<bool>, e: Huft, q: seq<bool>, r: seq<bool>)
    requires ValidShape(sh) && MayFill(sh, tbl, tbl', tabs, hn0, hn, stack, code, e)
    requires Entries(sh, tbl, tabs, stack, Lo(code))
    requires q in tabs && |r| == tabs[q].width && Lo(code) <= Lo(q + r) < Lo(code) + Size(|code|)
    ensures EntryOK(sh, tbl', tabs, q, r)
  {
    hide Layout, CellsFilled, Entries, GoodLeaf, EntryOK, Lo, Path;
    LayoutPlaced(sh, tabs, hn0, hn);
    var h := InsideCode(sh, tabs, stack, code, q, r);
    if h == |stack| - 1 {
      LeafInside(sh, tabs, hn0, hn, tbl, tbl', stack, code, e, q, r);
      FillLeaf(sh, tbl, tbl', tabs, hn0, hn, stack, code, e, r);
    } else {
      FillCoversLink(sh, tbl, tbl', tabs, hn0, hn, stack, code, e, h, r);
    }
  }

  /** In the last table, an entry that starts inside the code is one of the code's. */
  lemma {:induction false} LeafInside(sh: Shape, tabs: Tabs, hn0: nat, hn: nat, tbl: seq<Huft>, tbl': seq<Huft>, stack: seq<seq<bool>>, code: seq<bool>, e: Huft, q: seq<bool>, r: seq<bool>)
    requires ValidShape(sh) && MayFill(sh, tbl, tbl', tabs, hn0, hn, stack, code, e)
    requires q == stack[|stack| - 1] && |r| == tabs[q].width && (code <= q + r || q + r <= code)
    ensures code <= q + r
  {
    hide Layout, CellsFilled, GoodLeaf, Path;
  }

  /** A table entry that starts inside the code belongs to a table on its path. */
  lemma {:induction false} InsideCode(sh: Shape, tabs: Tabs, stack: seq<seq<bool>>, code: seq<bool>, q: seq<bool>, r: seq<bool>) returns (h: nat)
    requires ValidShape(sh) && Placed(sh, tabs) && Path(sh, tabs, stack, code) && |code| <= BMAX && (forall p | p in tabs :: |p| < |code|)
    requires q in tabs && |r| == tabs[q].width && Lo(code) <= Lo(q + r) < Lo(code) + Size(|code|)
    ensures h < |stack| && stack[h] == q && (code <= q + r || q + r <= code)
  {
    hide Lo, Steps, OnCode;
    if |q + r| >= |code| {
      LoExtends(code, q + r);
      assert q <= code;
    } else {
      LoShortens(code, q + r);
      assert q <= code;
    }
    assert q in stack;
    h :| 0 <= h < |stack| && stack[h] == q;
  }

  lemma {:induction false} FillCoversLink(sh: Shape, tbl: seq<Huft>, tbl': seq<Huft>, tabs: Tabs, hn0: nat, hn: nat, stack: seq<seq<bool>>, code: seq<bool>, e: Huft, h: nat, r: seq<bool>)
    requires ValidShape(sh) && MayFill(sh, tbl, tbl', tabs, hn0, hn, stack, code, e)
    requires Entries(sh, tbl, tabs, stack, Lo(code))
    requires h < |stack| - 1 && |r| == tabs[stack[h]].width
    requires code <= stack[h] + r || stack[h] + r <= code
    ensures EntryOK(sh, tbl', tabs, stack[h], r)
  {
    var q := stack[h];
    assert |r| == sh.l && |stack[h + 1]| == |q| + sh.l;
    StackGrows(sh, tabs, stack, code, h + 1, |stack| - 1);
    assert stack[h + 1] <= code && |stack[h + 1]| < |code|;
    assert q + r == stack[h + 1];
    assert LinkOK(sh, tbl, tabs, stack[h], stack[h + 1]);
    assert stack[h + 1][|q|..] == r;
    StackGrows(sh, tabs, stack, code, h, |stack| - 1);
    FillKeeps(sh, tbl, tbl', tabs, hn0, hn, stack, code, e, q, r);
  }

  lemma {:induction false} FillKeepsEntries(sh: Shape, tbl: seq<Huft>, tbl': seq<Huft>, tabs: Tabs, hn0: nat, hn: nat, stack: seq<seq<bool>>, code: seq<bool>, e: Huft)
    requires ValidShape(sh) && MayFill(sh, tbl, tbl', tabs, hn0, hn, stack, code, e)
    requires Entries(sh, tbl, tabs, stack, Lo(code))
    ensures Entries(sh, tbl', tabs, stack, Lo(code) + Size(|code|))
  {
    forall q, r | q in tabs && |r| == tabs[q].width && Lo(q + r) < Lo(code) + Size(|code|)
      ensures EntryOK(sh, tbl', tabs, q, r)
    {
      if Lo(q + r) < Lo(code) {
        assert EntryOK(sh, tbl, tabs, q, r);
        if code <= q + r {
          LoPrefix(code, q + r);
        }
        FillKeeps(sh, tbl, tbl', tabs, hn0, hn, stack, code, e, q, r);
      } else {
        FillCoversNew(sh, tbl, tbl', tabs, hn0, hn, stack, code, e, q, r);
      }
    }
    forall h | 0 <= h < |stack| - 1
      ensures LinkOK(sh, tbl', tabs, stack[h], stack[h + 1])
    {
      assert LinkOK(sh, tbl, tabs, stack[h], stack[h + 1]);
      StackGrows(sh, tabs, stack, code, h, |stack| - 1);
      FillKeeps(sh, tbl, tbl', tabs, hn0, hn, stack, code, e, stack[h], stack[h + 1][|stack[h]|..]);
    }
  }

  // ----- the next code ------------------------------------------------------

  /** The code that follows `code` at the same length; after all ones, all zeros. */
  function Succ(code: seq<bool>): (s: seq<bool>)
    ensures |s| == |code|
  {
    if code == [] then []
    else
      var n := |code| - 1;
      if code[n] then Succ(code[..n]) + [false] else code[..n] + [true]
  }

  lemma {:induction false} MsbSucc(code: seq<bool>)
    ensures Msb(Succ(code)) == if Msb(code) + 1 == Pow2(|code|) then 0 else Msb(code) + 1
  {
    if code != [] {
      var n := |code| - 1;
      var s := Succ(code);
      MsbSucc(code[..n]);
      MsbBound(code[..n]);
      assert s[..n] == if code[n] then Succ(code[..n]) else code[..n];
    }
  }

  /** Incrementing keeps the bits up to some zero, sets that one, and clears the ones after it. */
  lemma {:induction false} SuccFlips(code: seq<bool>) returns (b: nat)
    requires Msb(code) + 1 < Pow2(|code|)
    ensures b < |code|
    ensures Succ(code)[..b] == code[..b] && Succ(code)[b] && !code[b]
    ensures forall t :: b < t < |code| ==> code[t] && !Succ(code)[t]
  {
    var n := |code| - 1;
    if code[n] {
      b := SuccFlips(code[..n]);
      assert code[..n][..b] == code[..b];
      assert Succ(code)[..b] == Succ(code[..n])[..b];
    } else {
      b := n;
    }
  }

  lemma {:induction false} LoSucc(code: seq<bool>)
    requires |code| <= BMAX && Lo(code) + Size(|code|) < Whole
    ensures Msb(code) + 1 < Pow2(|code|)
    ensures Lo(Succ(code)) == Lo(code) + Size(|code|)
  {
    var u := Size(|code|);
    WholeSplit(|code|);
    MulDistributes(Msb(code), 1, u);
    MulOrder(Msb(code) + 1, Pow2(|code|), u);
    MsbSucc(code);
  }

  /** The part of the path that the next code shares. */
  ghost predicate Popped(stack: seq<seq<bool>>, code: seq<bool>, n: nat) {
    && 1 <= n <= |stack|
    && stack[n - 1] <= code
    && (n < |stack| ==> !(stack[n] <= code))
  }

  lemma {:induction false} SuccKeepsPath(sh: Shape, tabs: Tabs, stack: seq<seq<bool>>, code: seq<bool>, n: nat)
    requires sh.l > 0 && Path(sh, tabs, stack, code)
    requires |code| <= BMAX && |code| <= Depth(sh, stack)
    requires Lo(code) + Size(|code|) < Whole
    requires forall p | p in tabs :: |p| < |code| && Lo(p) <= Lo(code)
    requires Popped(stack, Succ(code), n)
    ensures Path(sh, tabs, stack[..n], Succ(code))
  {
    LoSucc(code);
    var b := SuccFlips(code);
    forall h | 0 <= h < n
      ensures stack[h] in tabs && stack[h] <= Succ(code) && Aligned(|stack[h]|, sh.l)
    {
      PathIsChain(sh, tabs, stack, code, h, n - 1);
    }
    SuccZeroTail(sh, tabs, stack, code, n, b);
    forall p | p in tabs && p <= Succ(code)
      ensures p in stack[..n]
    {
      SuccTables(sh, tabs, stack, code, n, b, p);
    }
    PathIs(sh, tabs, stack, stack[..n], code, Succ(code));
  }

  lemma {:induction false} PathIs(sh: Shape, tabs: Tabs, stack: seq<seq<bool>>, stack': seq<seq<bool>>, code: seq<bool>, code': seq<bool>)
    requires sh.l > 0 && Path(sh, tabs, stack, code) && [] < stack' <= stack
    requires forall h :: 0 <= h < |stack'| ==> stack[h] in tabs && stack[h] <= code' && Aligned(|stack[h]|, sh.l)
    requires forall t :: Depth(sh, stack') <= t < |code'| ==> !code'[t]
    requires AllOnStack(tabs, stack', code')
    ensures Path(sh, tabs, stack', code')
  {
  }

  lemma {:induction false} SuccZeroTail(sh: Shape, tabs: Tabs, stack: seq<seq<bool>>, code: seq<bool>, n: nat, b: nat)
    requires sh.l > 0 && Path(sh, tabs, stack, code)
    requires |code| <= Depth(sh, stack) && Popped(stack, Succ(code), n)
    requires b < |code| && Succ(code)[..b] == code[..b]
    requires forall t :: b < t < |code| ==> !Succ(code)[t]
    ensures forall t :: Depth(sh, stack[..n]) <= t < |code| ==> !Succ(code)[t]
  {
    if n < |stack| {
      assert |stack[n]| == |stack[n - 1 + 1]| == |stack[n - 1]| + sh.l;
      SharedPrefix(stack[n], code, Succ(code), b);
    } else {
      assert stack[..n] == stack;
    }
  }

  lemma {:induction false} SuccTables(sh: Shape, tabs: Tabs, stack: seq<seq<bool>>, code: seq<bool>, n: nat, b: nat, p: seq<bool>)
    requires sh.l > 0 && Path(sh, tabs, stack, code) && |code| <= BMAX
    requires Popped(stack, Succ(code), n)
    requires b < |code| && Succ(code)[..b] == code[..b]
    requires forall t :: b < t < |code| ==> !Succ(code)[t]
    requires Lo(Succ(code)) > Lo(code)
    requires p in tabs && p <= Succ(code) && |p| < |code| && Lo(p) <= Lo(code)
    ensures p in stack[..n]
  {
    var code' := Succ(code);
    assert |p| <= b by {
      assert p == code'[..|p|];
      if |p| > b {
        LoOfZeroTail(code', |p|);
      }
    }
    SharedPrefix(p, code', code, b);
    assert p in stack;
    var h :| 0 <= h < |stack| && stack[h] == p;
    PathIsChain(sh, tabs, stack, code, n, h);
    assert h < n;
    assert stack[..n][h] == p;
  }

  lemma {:induction false} SharedPrefix(p: seq<bool>, s: seq<bool>, s': seq<bool>, b: nat)
    requires b <= |s| && b <= |s'| && s'[..b] == s[..b]
    ensures |p| <= b && p <= s ==> p <= s'
  {
    if |p| <= b && p <= s {
      assert forall i :: 0 <= i < |p| ==> p[i] == s[..b][i] == s'[..b][i];
    }
  }

  lemma {:induction false} PathIsChain(sh: Shape, tabs: Tabs, stack: seq<seq<bool>>, code: seq<bool>, i: nat, j: nat)
    requires sh.l > 0 && Path(sh, tabs, stack, code) && j < |stack|
    ensures i <= j ==> stack[i] <= stack[j]
  {
    if i <= j {
      StackGrows(sh, tabs, stack, code, i, j);
    }
  }

  lemma {:induction false} LengthenKeepsPath(sh: Shape, tabs: Tabs, stack: seq<seq<bool>>, code: seq<bool>)
    requires sh.l > 0 && Path(sh, tabs, stack, code) && |code| < BMAX
    requires forall p | p in tabs :: |p| < |code|
    ensures Path(sh, tabs, stack, code + [false])
    ensures Lo(code + [false]) == Lo(code)
  {
    var code' := code + [false];
    assert code'[..|code|] == code;
    assert Size(|code|) == 2 * Size(|code'|);
    MulDouble(Msb(code), Size(|code'|));
    assert Msb(code') == 2 * Msb(code);
  }

  // ----- what a skipped level leaves behind -------------------------------------

  /** Table `q` has a link to the table of `p`, one level down. */
  ghost predicate Leads(sh: Shape, tbl: seq<Huft>, tabs: Tabs, q: seq<bool>, p: seq<bool>) {
    && q in tabs && p in tabs && q <= p && |p| == |q| + sh.l && tabs[q].width == sh.l
    && var i := Cell(tabs, q, p[|q|..]);
       i < |tbl| && i <= tabs[p].start && tbl[i] == Huft(tabs[p].width, sh.l, tabs[p].start - i)
  }

  ghost predicate Chained(sh: Shape, tbl: seq<Huft>, tabs: Tabs, chain: seq<seq<bool>>) {
    forall h :: 0 <= h < |chain| - 1 ==> Leads(sh, tbl, tabs, chain[h], chain[h + 1])
  }

  /** The entry of a table that comes after all that `l` bits can index. */
  function HoleAt(sh: Shape, t: Tab): (r: nat) {
    t.start + Pow2(sh.l)
  }

  /** A table on a linked path is wider than `l` bits, and an entry past the first 2^l was never written. */
  ghost predicate Hole(sh: Shape, tbl: seq<Huft>, tabs: Tabs, chain: seq<seq<bool>>, orig: seq<Huft>, code: seq<bool>) {
    && |chain| > 1 && chain[0] == [] && Chained(sh, tbl, tabs, chain)
    && var p := chain[|chain| - 1];
       && p in tabs && tabs[p].width > sh.l && |p| + sh.l < |code|
       && HoleAt(sh, tabs[p]) < |tbl| == |orig| && tbl[HoleAt(sh, tabs[p])] == orig[HoleAt(sh, tabs[p])]
  }

  /** The table of `p` was opened by a code that ends in it. */
  ghost predicate OpenedInTurn(sh: Shape, p: seq<bool>) {
    exists c :: IsCode(sh, c) && |p| < |c| <= |p| + sh.l && |c| <= BMAX && Lo(c) == Lo(p)
  }

  /** Table space not yet taken is as it was; until a level is skipped all is in turn, then there is a hole. */
  ghost predicate Traced(sh: Shape, tbl: seq<Huft>, hn: nat, pr: Progress) {
    && |tbl| == |pr.orig| && hn <= |tbl| && tbl[hn..] == pr.orig[hn..]
    && (pr.stack != [] ==> pr.stack[0] == [])
    && if pr.ok then Chained(sh, tbl, pr.tabs, pr.stack) && forall p | p in pr.tabs :: |p| <= BMAX && OpenedInTurn(sh, p)
       else Hole(sh, tbl, pr.tabs, pr.chain, pr.orig, pr.code)
  }

  /** Opening a table leaves links to other tables alone. */
  lemma {:induction false} OpenKeepsLead(sh: Shape, tbl: seq<Huft>, tbl': seq<Huft>, tabs: Tabs, hn0: nat, hn: nat, stack: seq<seq<bool>>, code: seq<bool>, width: nat, q: seq<bool>, p: seq<bool>)
    requires sh.l > 0 && Layout(sh, tabs, hn0, hn) && MayOpen(sh, tabs, stack, code, width) && code[..Depth(sh, stack)] !in tabs
    requires LinkWritten(sh, tbl, tbl', tabs, stack, code, hn, width) && Leads(sh, tbl, tabs, q, p)
    ensures Leads(sh, tbl', tabs[code[..Depth(sh, stack)] := Tab(hn, width)], q, p)
  {
    hide Fits, Steps, AllOnStack, Aligned;
    if stack != [] {
      var top := stack[|stack| - 1];
      var t, r := code[|top|..Depth(sh, stack)], p[|q|..];
      assert top + t == code[..Depth(sh, stack)] && q + r == p;
      if Cell(tabs, top, t) == Cell(tabs, q, r) {
        LinkCell(sh, tabs, hn0, hn, top, t, q, r);
      }
    }
  }

  /** Two links at one place are one link. */
  lemma {:induction false} LinkCell(sh: Shape, tabs: Tabs, hn0: nat, hn: nat, q: seq<bool>, r: seq<bool>, q': seq<bool>, r': seq<bool>)
    requires Layout(sh, tabs, hn0, hn) && q in tabs && q' in tabs && |r| == |r'| == sh.l
    requires tabs[q].width >= sh.l && tabs[q'].width >= sh.l && Cell(tabs, q, r) == Cell(tabs, q', r')
    ensures q == q' && r == r'
  {
    assert q != q' ==> Apart(tabs[q], tabs[q']);
    LsbBound(r);
    LsbBound(r');
    Pow2Monotone(sh.l, tabs[q].width);
    Pow2Monotone(sh.l, tabs[q'].width);
    LsbInjective(r, r');
  }

  lemma {:induction false} OpenKeepsChain(sh: Shape, tbl: seq<Huft>, tbl': seq<Huft>, tabs: Tabs, hn0: nat, hn: nat, stack: seq<seq<bool>>, code: seq<bool>, width: nat, chain: seq<seq<bool>>)
    requires sh.l > 0 && Layout(sh, tabs, hn0, hn) && MayOpen(sh, tabs, stack, code, width) && code[..Depth(sh, stack)] !in tabs
    requires LinkWritten(sh, tbl, tbl', tabs, stack, code, hn, width) && Chained(sh, tbl, tabs, chain)
    ensures Chained(sh, tbl', tabs[code[..Depth(sh, stack)] := Tab(hn, width)], chain)
  {
    var tabs' := tabs[code[..Depth(sh, stack)] := Tab(hn, width)];
    hide Leads, Layout, MayOpen, LinkWritten;
    forall h | 0 <= h < |chain| - 1
      ensures Leads(sh, tbl', tabs', chain[h], chain[h + 1])
    {
      OpenKeepsLead(sh, tbl, tbl', tabs, hn0, hn, stack, code, width, chain[h], chain[h + 1]);
    }
  }

  /** The link to the new table extends the path. */
  lemma {:induction false} OpenAddsLead(sh: Shape, tbl: seq<Huft>, tbl': seq<Huft>, tabs: Tabs, hn0: nat, hn: nat, stack: seq<seq<bool>>, code: seq<bool>, width: nat)
    requires sh.l > 0 && Layout(sh, tabs, hn0, hn) && MayOpen(sh, tabs, stack, code, width) && code[..Depth(sh, stack)] !in tabs
    requires LinkWritten(sh, tbl, tbl', tabs, stack, code, hn, width)
    requires stack != [] ==> tabs[stack[|stack| - 1]].width <= sh.l
    requires Chained(sh, tbl, tabs, stack)
    ensures Chained(sh, tbl', tabs[code[..Depth(sh, stack)] := Tab(hn, width)], stack + [code[..Depth(sh, stack)]])
  {
    hide Fits, Steps, AllOnStack, Aligned;
    var p := code[..Depth(sh, stack)];
    var tabs', stack' := tabs[p := Tab(hn, width)], stack + [p];
    OpenKeepsChain(sh, tbl, tbl', tabs, hn0, hn, stack, code, width, stack);
    if stack != [] {
      var top := stack[|stack| - 1];
      assert p[|top|..] == code[|top|..|p|];
      assert Leads(sh, tbl', tabs', top, p);
    }
    hide Leads;
    forall h | 0 <= h < |stack'| - 1
      ensures Leads(sh, tbl', tabs', stack'[h], stack'[h + 1])
    {
      if h < |stack| - 1 {
        assert Leads(sh, tbl', tabs', stack[h], stack[h + 1]);
      }
    }
  }

  lemma {:induction false} OpenKeepsHole(sh: Shape, tbl: seq<Huft>, tbl': seq<Huft>, tabs: Tabs, hn0: nat, hn: nat, stack: seq<seq<bool>>, code: seq<bool>, width: nat, chain: seq<seq<bool>>, orig: seq<Huft>)
    requires sh.l > 0 && Layout(sh, tabs, hn0, hn) && MayOpen(sh, tabs, stack, code, width) && code[..Depth(sh, stack)] !in tabs
    requires LinkWritten(sh, tbl, tbl', tabs, stack, code, hn, width) && Hole(sh, tbl, tabs, chain, orig, code)
    ensures Hole(sh, tbl', tabs[code[..Depth(sh, stack)] := Tab(hn, width)], chain, orig, code)
  {
    hide Fits, Steps, AllOnStack, Aligned;
    OpenKeepsChain(sh, tbl, tbl', tabs, hn0, hn, stack, code, width, chain);
    var p := chain[|chain| - 1];
    if stack != [] {
      var top := stack[|stack| - 1];
      LsbBound(code[|top|..Depth(sh, stack)]);
      Pow2Monotone(sh.l, tabs[top].width);
      Pow2Monotone(sh.l + 1, tabs[p].width);
      assert top != p ==> Apart(tabs[top], tabs[p]);
    }
  }

  lemma {:induction false} OpenedInTurnNow(sh: Shape, code: seq<bool>, p: seq<bool>)
    requires IsCode(sh, code) && |p| < |code| <= |p| + sh.l && |code| <= BMAX && Lo(code) == Lo(p)
    ensures OpenedInTurn(sh, p)
  {
  }

  lemma {:induction false} OpenKeepsFresh(sh: Shape, tbl: seq<Huft>, tbl': seq<Huft>, tabs: Tabs, stack: seq<seq<bool>>, code: seq<bool>, hn: nat, width: nat, orig: seq<Huft>, hn': nat)
    requires sh.l > 0 && MayOpen(sh, tabs, stack, code, width) && LinkWritten(sh, tbl, tbl', tabs, stack, code, hn, width)
    requires |tbl| == |orig| && hn < hn' <= |tbl| && tbl[hn..] == orig[hn..]
    ensures forall i :: hn < i < |tbl| ==> tbl'[i] == orig[i]
    ensures tbl'[hn'..] == orig[hn'..]
  {
    hide MayOpen;
    forall i | hn < i < |tbl|
      ensures tbl'[i] == orig[i]
    {
      assert tbl[hn..][i - hn] == orig[hn..][i - hn];
    }
  }

  lemma {:induction false} OpenKeepsTrace(sh: Shape, tbl: seq<Huft>, tbl': seq<Huft>, hn0: nat, hn: nat, pr: Progress, width: nat, hn': nat)
    requires ValidShape(sh) && Layout(sh, pr.tabs, hn0, hn) && MayOpen(sh, pr.tabs, pr.stack, pr.code, width)
    requires pr.code[..Depth(sh, pr.stack)] !in pr.tabs && Lo(pr.code[..Depth(sh, pr.stack)]) == Lo(pr.code)
    requires LinkWritten(sh, tbl, tbl', pr.tabs, pr.stack, pr.code, hn, width) && IsCode(sh, pr.code)
    requires Traced(sh, tbl, hn, pr) && (pr.ok ==> forall p | p in pr.tabs :: pr.tabs[p].width <= sh.l)
    requires hn' == hn + Pow2(width) <= |tbl| && |pr.code| - Depth(sh, pr.stack) <= width
    requires pr.stack == [] ==> |pr.code| <= sh.l
    ensures Traced(sh, tbl', hn', Opened(sh, pr, hn, width))
  {
    hide Layout, LinkWritten, Chained, OpenedInTurn, IsCode, Lo, Hole, Path, Fits, Aligned;
    OpenKeepsFresh(sh, tbl, tbl', pr.tabs, pr.stack, pr.code, hn, width, pr.orig, hn');
    LinkSize(sh, tbl, tbl', pr, hn, width);
    TopOnPath(sh, pr, width);
    if !pr.ok {
      OpenKeepsHole(sh, tbl, tbl', pr.tabs, hn0, hn, pr.stack, pr.code, width, pr.chain, pr.orig);
    } else {
      OpenAddsLead(sh, tbl, tbl', pr.tabs, hn0, hn, pr.stack, pr.code, width);
      if |pr.code| <= Depth(sh, pr.stack) + sh.l {
        OpenedInTurnNow(sh, pr.code, pr.code[..Depth(sh, pr.stack)]);
      } else {
        HoleOpens(sh, tbl', pr, hn, width, hn');
      }
    }
  }

  /** The table opened for a code that skips a level is the hole's. */
  lemma {:induction false} HoleOpens(sh: Shape, tbl': seq<Huft>, pr: Progress, hn: nat, width: nat, hn': nat)
    requires Depth(sh, pr.stack) + sh.l < |pr.code| && |pr.code| - Depth(sh, pr.stack) <= width && pr.stack != [] && pr.stack[0] == []
    requires hn' == hn + Pow2(width) <= |tbl'| == |pr.orig| && forall i :: hn < i < |tbl'| ==> tbl'[i] == pr.orig[i]
    requires var p := pr.code[..Depth(sh, pr.stack)]; Chained(sh, tbl', pr.tabs[p := Tab(hn, width)], pr.stack + [p])
    ensures var p := pr.code[..Depth(sh, pr.stack)]; Hole(sh, tbl', pr.tabs[p := Tab(hn, width)], pr.stack + [p], pr.orig, pr.code)
  {
    hide Chained;
    Pow2Monotone(sh.l + 1, width);
  }

  lemma {:induction false} LinkSize(sh: Shape, tbl: seq<Huft>, tbl': seq<Huft>, pr: Progress, hn: nat, width: nat)
    requires sh.l > 0 && MayOpen(sh, pr.tabs, pr.stack, pr.code, width) && LinkWritten(sh, tbl, tbl', pr.tabs, pr.stack, pr.code, hn, width)
    ensures |tbl'| == |tbl|
  {
  }

  lemma {:induction false} TopOnPath(sh: Shape, pr: Progress, width: nat)
    requires sh.l > 0 && MayOpen(sh, pr.tabs, pr.stack, pr.code, width)
    ensures pr.stack != [] ==> pr.stack[|pr.stack| - 1] in pr.tabs && pr.stack[0] == []
  {
  }

  lemma {:induction false} FillKeepsChain(sh: Shape, tbl: seq<Huft>, tbl': seq<Huft>, tabs: Tabs, hn0: nat, hn: nat, stack: seq<seq<bool>>, code: seq<bool>, e: Huft, chain: seq<seq<bool>>)
    requires ValidShape(sh) && MayFill(sh, tbl, tbl', tabs, hn0, hn, stack, code, e) && Chained(sh, tbl, tabs, chain)
    ensures Chained(sh, tbl', tabs, chain)
  {
    hide Layout, Path, GoodLeaf, CellFilled;
    var p := stack[|stack| - 1];
    forall h | 0 <= h < |chain| - 1
      ensures Leads(sh, tbl', tabs, chain[h], chain[h + 1])
    {
      assert Leads(sh, tbl, tabs, chain[h], chain[h + 1]);
      FillKeepsCell(tbl, tbl', tabs, p, code[|p|..], e, chain[h], chain[h + 1][|chain[h]|..]);
    }
  }

  lemma {:induction false} FillKeepsCell(tbl: seq<Huft>, tbl': seq<Huft>, tabs: Tabs, p: seq<bool>, tail: seq<bool>, e: Huft, q: seq<bool>, r: seq<bool>)
    requires CellsFilled(tbl, tbl', tabs, p, tail, e) && q in tabs && |r| == tabs[q].width
    requires q == p ==> !(tail <= r)
    ensures Cell(tabs, q, r) < |tbl| && Cell(tabs, q, r) < |tbl'| && tbl'[Cell(tabs, q, r)] == tbl[Cell(tabs, q, r)]
  {
    assert CellFilled(tbl, tbl', tabs, p, tail, e, q, r);
  }

  /** The index of the hole, as bits. */
  function HoleBits(l: nat, width: nat): (r: seq<bool>)
    requires l < width
    ensures |r| == width
  {
    Zeros(l) + [true] + Zeros(width - l - 1)
  }

  lemma {:induction false} HoleIndex(l: nat, width: nat)
    requires l < width
    ensures Lsb(HoleBits(l, width)) == Pow2(l)
  {
    LsbZeros(l);
    LsbZeros(width - l - 1);
    assert Lsb([true]) == 1;
    LsbConcat(Zeros(l), [true]);
    LsbConcat(Zeros(l) + [true], Zeros(width - l - 1));
  }

  lemma {:induction false} FillKeepsHole(sh: Shape, tbl: seq<Huft>, tbl': seq<Huft>, tabs: Tabs, hn0: nat, hn: nat, stack: seq<seq<bool>>, code: seq<bool>, e: Huft, chain: seq<seq<bool>>, orig: seq<Huft>, code': seq<bool>)
    requires ValidShape(sh) && MayFill(sh, tbl, tbl', tabs, hn0, hn, stack, code, e) && Hole(sh, tbl, tabs, chain, orig, code)
    requires |code'| == |code|
    ensures Hole(sh, tbl', tabs, chain, orig, code')
  {
    hide Layout, Path, GoodLeaf, CellsFilled, Leads;
    FillKeepsChain(sh, tbl, tbl', tabs, hn0, hn, stack, code, e, chain);
    var p, last := chain[|chain| - 1], stack[|stack| - 1];
    HoleIndex(sh.l, tabs[p].width);
    FillKeepsCell(tbl, tbl', tabs, last, code[|last|..], e, p, HoleBits(sh.l, tabs[p].width));
  }

  lemma {:induction false} ChainedPrefix(sh: Shape, tbl: seq<Huft>, tabs: Tabs, chain: seq<seq<bool>>, n: nat)
    requires Chained(sh, tbl, tabs, chain) && n <= |chain|
    ensures Chained(sh, tbl, tabs, chain[..n])
  {
    hide Leads;
    var short := chain[..n];
    forall h | 0 <= h < |short| - 1
      ensures Leads(sh, tbl, tabs, short[h], short[h + 1])
    {
      assert Leads(sh, tbl, tabs, chain[h], chain[h + 1]);
    }
  }

  lemma {:induction false} FillKeepsTrace(sh: Shape, tbl: seq<Huft>, tbl': seq<Huft>, hn0: nat, hn: nat, pr: Progress, e: Huft, n: nat)
    requires ValidShape(sh) && MayFill(sh, tbl, tbl', pr.tabs, hn0, hn, pr.stack, pr.code, e) && Traced(sh, tbl, hn, pr) && 1 <= n <= |pr.stack|
    ensures Traced(sh, tbl', hn, Advanced(pr, n))
  {
    hide Layout, Path, GoodLeaf, CellsFilled, Leads, Chained, OpenedInTurn;
    if pr.ok {
      FillKeepsChain(sh, tbl, tbl', pr.tabs, hn0, hn, pr.stack, pr.code, e, pr.stack);
      ChainedPrefix(sh, tbl', pr.tabs, pr.stack, n);
    } else {
      FillKeepsHole(sh, tbl, tbl', pr.tabs, hn0, hn, pr.stack, pr.code, e, pr.chain, pr.orig, Succ(pr.code));
    }
  }

  // ----- the invariant of the loop over codes ---------------------------------

  /**
    The tables made so far, the path of the next code, that code, and whether no level was skipped.
    `orig` is the table space as it was; `chain` is the path of the first code that skipped a level.
   */
  datatype Progress = Progress(tabs: Tabs, stack: seq<seq<bool>>, code: seq<bool>, ok: bool, orig: seq<Huft>, chain: seq<seq<bool>>)

  /** All codes before `pos` in code space are laid out in the table space from `hn0` to `hn`. */
  ghost predicate Inv(sh: Shape, tbl: seq<Huft>, hn0: nat, hn: nat, pr: Progress, pos: nat) {
    && ValidShape(sh) && hn0 <= hn <= |tbl|
    && Layout(sh, pr.tabs, hn0, hn)
    && pos <= Whole
    && (pos < Whole ==> 1 <= |pr.code| <= sh.g && Lo(pr.code) == pos && Path(sh, pr.tabs, pr.stack, pr.code))
    && (forall p | p in pr.tabs :: |p| < |pr.code| && Lo(p) <= pos)
    && (pr.ok ==> Entries(sh, tbl, pr.tabs, pr.stack, pos))
    && (pr.ok || Skips(sh))
    && RootOK(sh, pr, hn0)
    && Traced(sh, tbl, hn, pr)
    && (sh.l == sh.g && pr.stack != [] ==> hn == hn0 + Pow2(sh.l))
  }

  ghost predicate RootOK(sh: Shape, pr: Progress, hn0: nat) {
    if pr.stack == [] then pr.tabs == map[]
    else [] in pr.tabs && pr.tabs[[]] == Tab(hn0, sh.l)
  }

  /** The progress after a table of the given width is opened for the next code. */
  function Opened(sh: Shape, pr: Progress, hn: nat, width: nat): (pr': Progress)
    requires Depth(sh, pr.stack) <= |pr.code|
  {
    var w := Depth(sh, pr.stack);
    var p := pr.code[..w];
    var ok := pr.ok && |pr.code| <= w + sh.l;
    pr.(tabs := pr.tabs[p := Tab(hn, width)], stack := pr.stack + [p], ok := ok, chain := if pr.ok && !ok then pr.stack + [p] else pr.chain)
  }

  lemma {:induction false} SkipSeen(sh: Shape, tabs: Tabs, stack: seq<seq<bool>>, code: seq<bool>)
    requires ValidShape(sh) && Path(sh, tabs, stack, code) && IsCode(sh, code)
    requires stack != [] && Depth(sh, stack) + sh.l < |code|
    ensures Skips(sh)
  {
    var w := Depth(sh, stack);
    AlignedStep(|stack[|stack| - 1]|, sh.l, w);
    LoOfZeroTail(code, w);
    assert SkipAt(sh, code, w);
  }

  /** The root table is exactly `l` bits wide. */
  lemma {:induction false} RootWidth(sh: Shape, width: nat)
    requires ValidShape(sh) && 1 <= width <= sh.l && Fits(sh, [], width)
    ensures width == sh.l
  {
    var root: seq<bool> := [];
    assert Lo(root) + Size(|root|) == Whole;
    if width < sh.l {
      RoomBelowMax(sh, width);
    }
  }

  ghost predicate CanOpen(sh: Shape, hn0: nat, hn: nat, pr: Progress, width: nat)
    requires ValidShape(sh)
  {
    && |pr.code| <= BMAX && Lo(pr.code) < Whole
    && Depth(sh, pr.stack) < |pr.code| <= sh.g
    && 1 <= width && Depth(sh, pr.stack) + width <= sh.g
    && Fits(sh, pr.code[..Depth(sh, pr.stack)], width)
    && |pr.code| - Depth(sh, pr.stack) <= width
    && (|pr.code| <= Depth(sh, pr.stack) + sh.l ==> width <= sh.l)
    && (pr.stack == [] ==> |pr.code| <= sh.l && hn == hn0)
    && IsCode(sh, pr.code)
  }

  lemma {:induction false} CanOpenMayOpen(sh: Shape, tbl: seq<Huft>, hn0: nat, hn: nat, pr: Progress, width: nat)
    requires |pr.code| <= BMAX && Inv(sh, tbl, hn0, hn, pr, Lo(pr.code)) && CanOpen(sh, hn0, hn, pr, width)
    ensures MayOpen(sh, pr.tabs, pr.stack, pr.code, width)
  {
    if pr.stack != [] {
      MulOrder(NextCode(sh.lens, |pr.code|), Msb(pr.code), Size(|pr.code|));
      ParentIsWide(sh, pr.tabs, hn0, hn, pr.stack[|pr.stack| - 1], pr.code);
    }
  }

  lemma {:induction false} OpenKeepsRoot(sh: Shape, tbl: seq<Huft>, hn0: nat, hn: nat, pr: Progress, width: nat)
    requires |pr.code| <= BMAX && Inv(sh, tbl, hn0, hn, pr, Lo(pr.code)) && CanOpen(sh, hn0, hn, pr, width)
    ensures RootOK(sh, Opened(sh, pr, hn, width), hn0)
    ensures sh.l == sh.g ==> pr.stack == [] && width == sh.l && hn == hn0
  {
    var p := pr.code[..Depth(sh, pr.stack)];
    if pr.stack == [] {
      assert p == [];
      assert 0 + sh.l == sh.l;
      RootWidth(sh, width);
    } else {
      assert p != [];
    }
  }

  lemma {:induction false} EntriesWidth(sh: Shape, tbl: seq<Huft>, tabs: Tabs, hn0: nat, hn: nat, stack: seq<seq<bool>>, done: nat)
    requires ValidShape(sh) && Layout(sh, tabs, hn0, hn) && Entries(sh, tbl, tabs, stack, done)
    ensures forall p | p in tabs :: tabs[p].width <= sh.l
  {
    hide Built, LinksOK;
  }

  lemma {:induction false} OpenKeepsInv(sh: Shape, tbl: seq<Huft>, tbl': seq<Huft>, hn0: nat, hn: nat, pr: Progress, width: nat, hn': nat)
    requires |pr.code| <= BMAX && Inv(sh, tbl, hn0, hn, pr, Lo(pr.code)) && CanOpen(sh, hn0, hn, pr, width)
    requires MayOpen(sh, pr.tabs, pr.stack, pr.code, width)
    requires LinkWritten(sh, tbl, tbl', pr.tabs, pr.stack, pr.code, hn, width)
    requires hn' == hn + Pow2(width) <= |tbl|
    ensures Inv(sh, tbl', hn0, hn', Opened(sh, pr, hn, width), Lo(pr.code))
  {
    hide Traced, LinkWritten, Entries, Path, Layout, IsCode, Skips, RootOK, Fits, Lo, Kraft, ValidLengths, MayOpen;
    var p := pr.code[..Depth(sh, pr.stack)];
    var pr' := Opened(sh, pr, hn, width);
    NextTableIsNew(sh, pr.tabs, pr.stack, pr.code);
    if pr.ok {
      EntriesWidth(sh, tbl, pr.tabs, hn0, hn, pr.stack, Lo(pr.code));
    }
    OpenKeepsTrace(sh, tbl, tbl', hn0, hn, pr, width, hn');
    OpenKeepsLayout(sh, pr.tabs, hn0, hn, pr.stack, pr.code, width);
    OpenKeepsPath(sh, pr.tabs, pr.stack, pr.code, width, hn);
    OpenKeepsRoot(sh, tbl, hn0, hn, pr, width);
    LinkSize(sh, tbl, tbl', pr, hn, width);
    if pr'.ok {
      OpenKeepsEntries(sh, tbl, tbl', pr.tabs, hn0, hn, pr.stack, pr.code, width);
    } else if pr.ok {
      SkipSeen(sh, pr.tabs, pr.stack, pr.code);
    }
  }

  // ----- stepping to the next code ---------------------------------------------

  /** The progress after the entries of the current code are filled and `n` tables stay on the path. */
  function Advanced(pr: Progress, n: nat): (pr': Progress)
    requires n <= |pr.stack|
  {
    pr.(stack := pr.stack[..n], code := Succ(pr.code))
  }

  ghost predicate CanFill(sh: Shape, tbl: seq<Huft>, tbl': seq<Huft>, hn0: nat, hn: nat, pr: Progress, e: Huft)
    requires ValidShape(sh)
  {
    && |pr.code| <= BMAX && Lo(pr.code) < Whole && pr.stack != []
    && MayFill(sh, tbl, tbl', pr.tabs, hn0, hn, pr.stack, pr.code, e)
  }

  lemma {:induction false} EntriesOfPrefix(sh: Shape, tbl: seq<Huft>, tabs: Tabs, stack: seq<seq<bool>>, done: nat, n: nat)
    requires ValidShape(sh) && Placed(sh, tabs) && Entries(sh, tbl, tabs, stack, done) && n <= |stack|
    ensures Entries(sh, tbl, tabs, stack[..n], done)
  {
    var short := stack[..n];
    forall h | 0 <= h < |short| - 1
      ensures LinkOK(sh, tbl, tabs, short[h], short[h + 1])
    {
      assert LinkOK(sh, tbl, tabs, stack[h], stack[h + 1]);
    }
  }

  lemma {:induction false} FillFacts(sh: Shape, tbl: seq<Huft>, tbl': seq<Huft>, pr: Progress, hn0: nat, hn: nat, e: Huft)
    requires ValidShape(sh) && MayFill(sh, tbl, tbl', pr.tabs, hn0, hn, pr.stack, pr.code, e)
    ensures hn <= |tbl'| == |tbl| && Placed(sh, pr.tabs) && |pr.code| <= Depth(sh, pr.stack)
  {
    hide Path, CellsFilled, GoodLeaf;
  }

  lemma {:induction false} RootStays(sh: Shape, pr: Progress, n: nat, hn0: nat)
    requires RootOK(sh, pr, hn0) && 1 <= n <= |pr.stack|
    ensures RootOK(sh, Advanced(pr, n), hn0)
  {
  }

  lemma {:induction false} AdvanceKeepsInv(sh: Shape, tbl: seq<Huft>, tbl': seq<Huft>, hn0: nat, hn: nat, pr: Progress, e: Huft, n: nat)
    requires |pr.code| <= BMAX && Inv(sh, tbl, hn0, hn, pr, Lo(pr.code)) && CanFill(sh, tbl, tbl', hn0, hn, pr, e)
    requires Popped(pr.stack, Succ(pr.code), n)
    ensures Inv(sh, tbl', hn0, hn, Advanced(pr, n), Lo(pr.code) + Size(|pr.code|))
  {
    hide Traced, MayFill, Entries, Path, Layout, Skips, RootOK, Lo, Succ, Size, ValidShape;
    FillFacts(sh, tbl, tbl', pr, hn0, hn, e);
    RootStays(sh, pr, n, hn0);
    var pos' := Lo(pr.code) + Size(|pr.code|);
    PrefixEnds(pr.code);
    FillKeepsTrace(sh, tbl, tbl', hn0, hn, pr, e, n);
    if pr.ok {
      FillKeepsEntries(sh, tbl, tbl', pr.tabs, hn0, hn, pr.stack, pr.code, e);
      EntriesOfPrefix(sh, tbl', pr.tabs, pr.stack, pos', n);
    }
    if pos' < Whole {
      LoSucc(pr.code);
      SuccKeepsPath(sh, pr.tabs, pr.stack, pr.code, n);
    }
  }

  lemma {:induction false} PrefixEnds(p: seq<bool>)
    requires |p| <= BMAX
    ensures Lo(p) + Size(|p|) <= Whole
  {
    MsbBound(p);
    MulOrder(Msb(p), Pow2(|p|), Size(|p|));
    WholeSplit(|p|);
  }

  lemma {:induction false} LengthenKeepsInv(sh: Shape, tbl: seq<Huft>, hn0: nat, hn: nat, pr: Progress, pos: nat)
    requires Inv(sh, tbl, hn0, hn, pr, pos) && |pr.code| < sh.g
    ensures Inv(sh, tbl, hn0, hn, pr.(code := pr.code + [false]), pos)
  {
    if pos < Whole {
      LengthenKeepsPath(sh, pr.tabs, pr.stack, pr.code);
    }
  }
}
