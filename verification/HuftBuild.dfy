/**
  `huft_build`: from code lengths to lookup tables, in place in the table space.
 */
module HuftBuild {
  import opened Bits
  import opened Canonical
  import opened HuftTables
  import opened HuftLayout
  import opened HuftSpace
  import opened HuftSkip
  import opened ZStatus

  /** The capacity of the table space that `huft_build` assumes. */
  const MANY: nat := 1440

  // ----- counts, range and Kraft check ---------------------------------------

  method CountLengths(lens: seq<nat>) returns (c: array<nat>)
    requires ValidLengths(lens)
    ensures fresh(c) && c.Length == BMAX + 1
    ensures forall k :: 0 <= k <= BMAX ==> c[k] == Count(lens, k)
  {
    c := new nat[BMAX + 1](_ => 0);
    for i := 0 to |lens|
      invariant forall k :: 0 <= k <= BMAX ==> c[k] == Count(lens[..i], k)
    {
      forall k | 0 <= k <= BMAX
        ensures Count(lens[..i + 1], k) == Count(lens[..i], k) + (if lens[i] == k then 1 else 0)
      {
        CountPrefixStep(lens, k, i);
      }
      c[lens[i]] := c[lens[i]] + 1;
    }
    assert lens[..|lens|] == lens;
  }

  /** The least and the greatest length in use. */
  method LengthRange(c: array<nat>, ghost lens: seq<nat>) returns (j: nat, i: nat)
    requires ValidLengths(lens)
    requires c.Length == BMAX + 1 && forall k :: 0 <= k <= BMAX ==> c[k] == Count(lens, k)
    requires Count(lens, 0) < |lens|
    ensures 1 <= j <= i <= BMAX && Count(lens, j) > 0
    ensures MaxLen(lens, i)
    ensures forall k :: 1 <= k < j ==> Count(lens, k) == 0
  {
    ghost var s := SomeUsed(lens);
    CountPositive(lens, s);
    j := 1;
    while j <= BMAX && c[j] == 0
      invariant 1 <= j <= lens[s]
      invariant forall k :: 1 <= k < j ==> c[k] == 0
    {
      j := j + 1;
    }
    i := BMAX;
    while i > 0 && c[i] == 0
      invariant lens[s] <= i <= BMAX
      invariant forall k :: i < k <= BMAX ==> c[k] == 0
    {
      i := i - 1;
    }
    forall t | 0 <= t < |lens|
      ensures lens[t] <= i
    {
      CountPositive(lens, t);
    }
    ghost var t := NthSym(lens, i, 0);
    assert lens[t] == i;
  }

  lemma {:induction false} SomeUsed(lens: seq<nat>) returns (s: nat)
    requires Count(lens, 0) < |lens|
    ensures s < |lens| && lens[s] > 0
  {
    var n := |lens| - 1;
    if lens[n] > 0 {
      s := n;
    } else {
      s := SomeUsed(lens[..n]);
    }
  }

  lemma {:induction false} CountPositive(lens: seq<nat>, s: nat)
    requires s < |lens|
    ensures Count(lens, lens[s]) > 0
  {
    RankBound(lens, s);
  }

  lemma {:induction false} NextCodeZero(lens: seq<nat>, j: nat)
    requires forall k :: 1 <= k < j ==> Count(lens, k) == 0
    ensures NextCode(lens, j) == 0
  {
    if j > 1 {
      NextCodeZero(lens, j - 1);
    }
  }

  /** The code patterns that the lengths leave unused, or that they are over-subscribed. */
  method Leftover(c: array<nat>, ghost lens: seq<nat>, low: nat, g: nat) returns (over: bool, y: int)
    requires ValidLengths(lens)
    requires c.Length == BMAX + 1 && forall k :: 0 <= k <= BMAX ==> c[k] == Count(lens, k)
    requires 1 <= low <= g <= BMAX && MaxLen(lens, g)
    requires forall k :: 1 <= k < low ==> Count(lens, k) == 0
    ensures over <==> Kraft(lens) > Whole
    ensures !over ==> y == Pow2(g) - NextCode(lens, g) - Count(lens, g) >= 0
    ensures !over ==> (y != 0 <==> Kraft(lens) < Whole)
  {
    KraftAtMax(lens, g);
    NextCodeZero(lens, low);
    var j := low;
    y := Pow2(low);
    while j < g
      invariant low <= j <= g
      invariant y == Pow2(j) - NextCode(lens, j)
    {
      y := y - c[j];
      if y < 0 {
        if Kraft(lens) <= Whole {
          RoomAtLength(lens, j);
        }
        return true, y;
      }
      j, y := j + 1, 2 * y;
    }
    y := y - c[g];
    over := y < 0;
  }

  // ----- values in order of code length ---------------------------------------

  /** Where the symbols of length `k` start in the value table. */
  function Off(lens: seq<nat>, k: nat): (r: nat) {
    if k <= 1 then 0 else Off(lens, k - 1) + Count(lens, k - 1)
  }

  lemma {:induction false} OffBound(lens: seq<nat>, k: nat)
    requires 1 <= k
    ensures Off(lens, k) + CountFrom(lens, k) <= |lens|
  {
    if k > 1 {
      OffBound(lens, k - 1);
      CountFromStep(lens, k - 1);
    }
  }

  lemma {:induction false} OffMonotone(lens: seq<nat>, j: nat, k: nat)
    requires 1 <= j < k
    ensures Off(lens, j) + Count(lens, j) <= Off(lens, k)
    decreases k
  {
    if j + 1 < k {
      OffMonotone(lens, j, k - 1);
    }
  }

  ghost predicate Sorted(lens: seq<nat>, v: seq<nat>) {
    && |v| == |lens|
    && forall s :: 0 <= s < |lens| && lens[s] > 0 ==> Slot(lens, s) < |v| && v[Slot(lens, s)] == s
  }

  function Slot(lens: seq<nat>, s: nat): (r: nat)
    requires s < |lens|
  {
    Off(lens, lens[s]) + Rank(lens, s)
  }

  lemma {:induction false} SlotBound(lens: seq<nat>, s: nat)
    requires s < |lens| && lens[s] > 0
    ensures Slot(lens, s) < |lens|
  {
    RankBound(lens, s);
    OffBound(lens, lens[s]);
    CountFromStep(lens, lens[s]);
  }

  lemma {:induction false} SlotInjective(lens: seq<nat>, s: nat, t: nat)
    requires s < |lens| && t < |lens| && lens[s] > 0 && lens[t] > 0
    requires Slot(lens, s) == Slot(lens, t)
    ensures s == t
  {
    NthOfRank(lens, s);
    NthOfRank(lens, t);
    if lens[s] < lens[t] {
      OffMonotone(lens, lens[s], lens[t]);
    } else if lens[t] < lens[s] {
      OffMonotone(lens, lens[t], lens[s]);
    }
  }

  lemma {:induction false} SortedNth(lens: seq<nat>, v: seq<nat>, k: nat, a: nat)
    requires Sorted(lens, v) && k > 0 && a < Count(lens, k)
    ensures Off(lens, k) + a < |v| && v[Off(lens, k) + a] == NthSym(lens, k, a)
  {
    RankOfNth(lens, k, a);
    assert Slot(lens, NthSym(lens, k, a)) == Off(lens, k) + a;
  }

  /** Starting offsets of each length in the value table. */
  method Offsets(c: array<nat>, ghost lens: seq<nat>, g: nat) returns (x: array<nat>)
    requires c.Length == BMAX + 1 && 1 <= g <= BMAX
    requires forall k :: 1 <= k < g ==> c[k] == Count(lens, k)
    ensures fresh(x) && x.Length == BMAX + 1
    ensures forall k :: 1 <= k <= g ==> x[k] == Off(lens, k)
  {
    OffStart(lens);
    hide Off, Count;
    x := new nat[BMAX + 1](_ => 0);
    var j := 0;
    for k := 1 to g
      invariant j == Off(lens, k)
      invariant forall t :: 1 <= t <= k ==> x[t] == Off(lens, t)
    {
      OffStep(lens, k);
      j := j + c[k];
      x[k + 1] := j;
    }
  }

  lemma {:induction false} OffStart(lens: seq<nat>)
    ensures Off(lens, 1) == 0
  {
  }

  lemma {:induction false} OffStep(lens: seq<nat>, k: nat)
    requires k >= 1
    ensures Off(lens, k + 1) == Off(lens, k) + Count(lens, k)
  {
  }

  /** The first `i` symbols stand in their places in `v`, and `x` tells where the next of each length goes. */
  ghost predicate SortedUpTo(lens: seq<nat>, g: nat, i: nat, v: seq<nat>, x: seq<nat>)
    requires i <= |lens|
  {
    && |v| == |lens| && |x| > g
    && (forall s :: 0 <= s < i && lens[s] > 0 ==> Slot(lens, s) < |v| && v[Slot(lens, s)] == s)
    && (forall k :: 1 <= k <= g ==> x[k] == Off(lens, k) + Count(lens[..i], k))
  }

  lemma {:induction false} PlaceSymbol(lens: seq<nat>, g: nat, i: nat, v: seq<nat>, x: seq<nat>)
    requires i < |lens| && 0 < lens[i] <= g && SortedUpTo(lens, g, i, v, x)
    ensures x[lens[i]] < |v|
    ensures SortedUpTo(lens, g, i + 1, v[x[lens[i]] := i], x[lens[i] := x[lens[i]] + 1])
  {
    assert x[lens[i]] == Slot(lens, i);
    SlotBound(lens, i);
    forall s | 0 <= s < i && lens[s] > 0
      ensures Slot(lens, s) != Slot(lens, i)
    {
      if Slot(lens, s) == Slot(lens, i) {
        SlotInjective(lens, s, i);
      }
    }
    forall k | 1 <= k <= g
      ensures Count(lens[..i + 1], k) == Count(lens[..i], k) + (if lens[i] == k then 1 else 0)
    {
      CountPrefixStep(lens, k, i);
    }
  }

  lemma {:induction false} SkipSymbol(lens: seq<nat>, g: nat, i: nat, v: seq<nat>, x: seq<nat>)
    requires i < |lens| && lens[i] == 0 && SortedUpTo(lens, g, i, v, x)
    ensures SortedUpTo(lens, g, i + 1, v, x)
  {
    forall k | 1 <= k <= g
      ensures Count(lens[..i + 1], k) == Count(lens[..i], k)
    {
      CountPrefixStep(lens, k, i);
    }
  }

  lemma {:induction false} NoneSorted(lens: seq<nat>, g: nat, v: seq<nat>, x: seq<nat>)
    requires |v| == |lens| && |x| == BMAX + 1 && g <= BMAX && forall k :: 1 <= k <= g ==> x[k] == Off(lens, k)
    ensures SortedUpTo(lens, g, 0, v, x)
  {
  }

  /** The symbols in order of code length, and how many there are. */
  method SortSymbols(lens: seq<nat>, c: array<nat>, g: nat) returns (v: array<nat>, n: nat)
    requires ValidLengths(lens) && MaxLen(lens, g) && 1 <= g <= BMAX
    requires c.Length == BMAX + 1
    requires forall k :: 1 <= k < g ==> c[k] == Count(lens, k)
    ensures fresh(v) && Sorted(lens, v[..]) && n == Off(lens, g) + Count(lens, g)
  {
    hide Count, Off, Slot;
    var x := Offsets(c, lens, g);
    v := new nat[|lens|](_ => 0);
    NoneSorted(lens, g, v[..], x[..]);
    for i := 0 to |lens|
      invariant SortedUpTo(lens, g, i, v[..], x[..])
    {
      var j := lens[i];
      if j != 0 {
        PlaceSymbol(lens, g, i, v[..], x[..]);
        v[x[j]] := i;
        x[j] := x[j] + 1;
      } else {
        SkipSymbol(lens, g, i, v[..], x[..]);
      }
    }
    assert lens[..|lens|] == lens;
    n := x[g];
  }

  // ----- opening a table -------------------------------------------------------

  /** One more bit: twice the patterns, less the codes of that length. */
  lemma {:induction false} PatternsStep(sh: Shape, p: seq<bool>, f: int, n: nat)
    requires ValidShape(sh) && 1 <= n < sh.g && |p| <= BMAX
    requires f * Size(n) == Left(sh, p, n)
    ensures (2 * f - Cap(sh, n + 1)) * Size(n + 1) == Left(sh, p, n + 1)
    ensures 2 * f <= Cap(sh, n + 1) ==> Left(sh, p, n + 1) <= 0
  {
    CapEndStep(sh, n);
    assert Size(n) == 2 * Size(n + 1);
    MulDouble(f, Size(n + 1));
    MulDistributes(2 * f, Cap(sh, n + 1), Size(n + 1));
    MulOrder(2 * f - Cap(sh, n + 1), 0, Size(n + 1));
  }

  /** The patterns that the codes of the first length leave, and that the greatest length leaves none. */
  lemma {:induction false} PatternsStart(sh: Shape, p: seq<bool>, k: nat, a: nat)
    requires ValidShape(sh) && |p| < k <= sh.g
    requires Lo(p) + (a + 1) * Size(k) == CapEnd(sh, k)
    ensures var f := Pow2(k - |p|);
            && (f - (a + 1)) * Size(k) == Left(sh, p, k)
            && (f <= a + 1 <==> Left(sh, p, k) <= 0)
    ensures Left(sh, p, sh.g) <= 0
  {
    hide Lo, CapEnd, Size, Pow2, Kraft, ValidLengths;
    var f := Pow2(k - |p|);
    PatternsOpen(k, |p|);
    MulDistributes(f, a + 1, Size(k));
    MulOrder(f, a + 1, Size(k));
    CapEndLast(sh);
    PrefixEnds(p);
  }

  /**
    The number of bits the table of prefix `p` looks at, `k` being the length of its
    first code and `a` the number of codes of that length to come after it.
   */
  method ChooseWidth(c: array<nat>, g: nat, l: nat, k: nat, w: nat, a: nat, ghost sh: Shape, ghost p: seq<bool>) returns (j: nat)
    requires ValidShape(sh) && sh.g == g && sh.l == l
    requires c.Length == BMAX + 1 && forall t :: 1 <= t <= g ==> c[t] == Cap(sh, t)
    requires |p| == w < k <= g
    requires Lo(p) + (a + 1) * Size(k) == CapEnd(sh, k)
    ensures 1 <= j && w + j <= g && k - w <= j
    ensures Fits(sh, p, j)
    ensures k <= w + l ==> j <= l
    ensures Paid(sh, p, k, a, j)
  {
    hide Cap, CapEnd, Lo, Size, Kraft, ValidLengths, Left, Fits, Paid;
    var z := if g - w > l then l else g - w;
    j := k - w;
    var f := Pow2(j);
    PatternsStart(sh, p, k, a);
    if f > a + 1 && j < z {
      j := TryWider(c, k, w, z, f - (a + 1), sh, p);
    }
    WidthChosen(sh, p, k, a, z, j);
  }

  /** Why the width chosen is wide enough, and how it is paid for. */
  lemma {:induction false} WidthChosen(sh: Shape, p: seq<bool>, k: nat, a: nat, z: nat, j: nat)
    requires ValidShape(sh) && |p| < k <= sh.g && z == (if sh.g - |p| > sh.l then sh.l else sh.g - |p|)
    requires Left(sh, p, sh.g) <= 0 && (Pow2(k - |p|) <= a + 1 <==> Left(sh, p, k) <= 0)
    requires if Pow2(k - |p|) > a + 1 && k - |p| < z then k - |p| < j <= z && Left(sh, p, |p| + j - 1) > 0 && (j < z ==> Left(sh, p, |p| + j) <= 0)
             else j == k - |p|
    ensures Fits(sh, p, j) && Paid(sh, p, k, a, j)
  {
    hide Cap, CapEnd, Lo, Size, Kraft, ValidLengths, Left, Fits;
    LeftFits(sh, p, j);
  }

  lemma {:induction false} LeftFits(sh: Shape, p: seq<bool>, j: nat)
    requires |p| + j <= BMAX
    ensures Left(sh, p, |p| + j) <= 0 || sh.l <= j ==> Fits(sh, p, j)
  {
  }

  /** Tries tables of more bits, up to `z`, until the codes of some length use up the patterns left. */
  method TryWider(c: array<nat>, k: nat, w: nat, z: nat, patterns: nat, ghost sh: Shape, ghost p: seq<bool>) returns (j: nat)
    requires ValidShape(sh)
    requires c.Length == BMAX + 1 && forall t :: 1 <= t <= sh.g ==> c[t] == Cap(sh, t)
    requires |p| == w < k && k - w < z && w + z <= sh.g
    requires patterns > 0 && patterns * Size(k) == Left(sh, p, k)
    ensures k - w < j <= z && Left(sh, p, w + j - 1) > 0
    ensures j < z ==> Left(sh, p, w + j) <= 0
  {
    hide Left, Cap, Size, Kraft, ValidLengths;
    var f := patterns;
    MulOrder(0, f, Size(k));
    j := k - w + 1;
    while j < z
      invariant k - w < j <= z
      invariant f > 0 && f * Size(w + j - 1) == Left(sh, p, w + j - 1) > 0
    {
      PatternsStep(sh, p, f, w + j - 1);
      MulOrder(0, 2 * f - Cap(sh, w + j), Size(w + j));
      f := 2 * f;
      if f <= c[w + j] {
        return;
      }
      f := f - c[w + j];
      j := j + 1;
    }
  }

  /** The registers that go with the path: its tables, their prefixes, and the bits before the last. */
  ghost predicate Regs(sh: Shape, pr: Progress, u: seq<nat>, x: seq<nat>, h: int, w: int) {
    && |u| == BMAX && |x| == BMAX + 1
    && h == |pr.stack| - 1
    && w == Depth(sh, pr.stack) - sh.l
    && |pr.stack| <= BMAX
    && forall t :: 0 <= t < |pr.stack| ==>
         pr.stack[t] in pr.tabs && u[t] == pr.tabs[pr.stack[t]].start && x[t] == Lsb(pr.stack[t])
  }

  lemma {:induction false} StackIsShort(sh: Shape, pr: Progress)
    requires sh.l > 0 && Path(sh, pr.tabs, pr.stack, pr.code) && Depth(sh, pr.stack) < |pr.code| <= BMAX
    ensures |pr.stack| < BMAX
  {
    if pr.stack != [] {
      StackGrows(sh, pr.tabs, pr.stack, pr.code, 0, |pr.stack| - 1);
    }
  }

  lemma {:induction false} RegsOpened(sh: Shape, pr: Progress, u: seq<nat>, x: seq<nat>, h: int, w: int, hn: nat, width: nat)
    requires sh.l > 0 && Regs(sh, pr, u, x, h, w)
    requires Path(sh, pr.tabs, pr.stack, pr.code) && Depth(sh, pr.stack) < |pr.code| <= BMAX
    ensures h + 1 < BMAX
    ensures Regs(sh, Opened(sh, pr, hn, width), u[h + 1 := hn],
                 x[h + 1 := Lsb(pr.code[..Depth(sh, pr.stack)])], h + 1, w + sh.l)
  {
    StackIsShort(sh, pr);
    NextTableIsNew(sh, pr.tabs, pr.stack, pr.code);
  }

  /** The code from the table above on, read as an index into it: later bits are all zero. */
  lemma {:induction false} LinkIndex(sh: Shape, pr: Progress)
    requires sh.l > 0 && pr.stack != [] && Path(sh, pr.tabs, pr.stack, pr.code) && Depth(sh, pr.stack) < |pr.code|
    ensures var top := pr.stack[|pr.stack| - 1];
            Lsb(pr.code) / Pow2(|top|) == Lsb(pr.code[|top|..Depth(sh, pr.stack)])
    ensures Lsb(pr.code) == Lsb(pr.code[..Depth(sh, pr.stack)])
  {
    hide Lsb, Pow2, Steps, AllOnStack, Aligned;
    var top, w := pr.stack[|pr.stack| - 1], Depth(sh, pr.stack);
    assert top <= pr.code && pr.code[w..] == Zeros(|pr.code| - w);
    LsbSplit(pr.code, |top|);
    ZerosAtEnd(pr.code, |top|, w);
    ZerosAtEnd(pr.code, 0, w);
    assert pr.code[0..] == pr.code && pr.code[0..w] == pr.code[..w];
  }

  /** Zeros at the end do not count. */
  lemma {:induction false} ZerosAtEnd(code: seq<bool>, a: nat, w: nat)
    requires a <= w <= |code| && code[w..] == Zeros(|code| - w)
    ensures Lsb(code[a..]) == Lsb(code[a..w])
  {
    hide Lsb, Pow2;
    assert code[a..] == code[a..w] + code[w..];
    LsbConcat(code[a..w], code[w..]);
    LsbZeros(|code| - w);
  }

  /** The code of length `k` and reversed value `i` is next, with `a` more of its length to come. */
  ghost predicate Ready(sh: Shape, tbl: seq<Huft>, hn0: nat, hn: nat, pr: Progress, k: nat, i: nat, a: nat) {
    && ValidShape(sh) && |pr.code| == k <= sh.g && i == Lsb(pr.code)
    && IsCode(sh, pr.code) && Lo(pr.code) < Whole
    && Inv(sh, tbl, hn0, hn, pr, Lo(pr.code))
    && (pr.stack == [] ==> k <= sh.l && hn == hn0)
    && Lo(pr.code) + (a + 1) * Size(k) == CapEnd(sh, k)
    && Thrifty(sh, hn0, hn, pr.stack, Lo(pr.code))
  }

  lemma {:induction false} ReadyOpened(sh: Shape, tbl: seq<Huft>, tbl': seq<Huft>, hn0: nat, hn: nat, pr: Progress, k: nat, i: nat, a: nat, width: nat, hn': nat)
    requires Ready(sh, tbl, hn0, hn, pr, k, i, a) && CanOpen(sh, hn0, hn, pr, width)
    requires MayOpen(sh, pr.tabs, pr.stack, pr.code, width)
    requires LinkWritten(sh, tbl, tbl', pr.tabs, pr.stack, pr.code, hn, width)
    requires hn' == hn + Pow2(width) <= |tbl| && Paid(sh, pr.code[..Depth(sh, pr.stack)], k, a, width)
    ensures Ready(sh, tbl', hn0, hn', Opened(sh, pr, hn, width), k, i, a)
  {
    hide Inv, CanOpen, MayOpen, LinkWritten, IsCode, Lo, CapEnd, Cap, Thrifty, Paid;
    OpenKeepsInv(sh, tbl, tbl', hn0, hn, pr, width, hn');
    ReadyIsPaid(sh, tbl, hn0, hn, pr, k, i, a, width);
  }

  lemma {:induction false} ReadyIsPaid(sh: Shape, tbl: seq<Huft>, hn0: nat, hn: nat, pr: Progress, k: nat, i: nat, a: nat, width: nat)
    requires Ready(sh, tbl, hn0, hn, pr, k, i, a) && CanOpen(sh, hn0, hn, pr, width) && Paid(sh, pr.code[..Depth(sh, pr.stack)], k, a, width)
    ensures Thrifty(sh, hn0, hn + Pow2(width), pr.stack + [pr.code[..Depth(sh, pr.stack)]], Lo(pr.code))
  {
    hide Inv, Size, Cap, CapEnd, Lo, Thrifty, Paid, Fits, Path, Layout, IsCode, ValidShape;
    ReadyFacts(sh, tbl, hn0, hn, pr, k, i, a);
    Followers(sh, pr.code, a);
    if pr.stack == [] {
      assert pr.code[..0] == [];
      RootWidth(sh, width);
    }
    OpenKeepsThrifty(sh, pr.tabs, pr.stack, pr.code, a, hn0, hn, width);
  }

  lemma {:induction false} ReadyMayOpen(sh: Shape, tbl: seq<Huft>, hn0: nat, hn: nat, pr: Progress, k: nat, i: nat, a: nat, width: nat)
    requires Ready(sh, tbl, hn0, hn, pr, k, i, a) && CanOpen(sh, hn0, hn, pr, width)
    ensures MayOpen(sh, pr.tabs, pr.stack, pr.code, width)
    ensures pr.code[..Depth(sh, pr.stack)] !in pr.tabs
  {
    CanOpenMayOpen(sh, tbl, hn0, hn, pr, width);
    NextTableIsNew(sh, pr.tabs, pr.stack, pr.code);
  }

  lemma {:induction false} LinkWrittenAt(sh: Shape, tbl: seq<Huft>, pr: Progress, hn: nat, width: nat, top: seq<bool>, t: seq<bool>)
    requires sh.l > 0 && MayOpen(sh, pr.tabs, pr.stack, pr.code, width)
    requires pr.stack != [] && top == pr.stack[|pr.stack| - 1] && t == pr.code[|top|..Depth(sh, pr.stack)]
    requires Cell(pr.tabs, top, t) < hn <= |tbl|
    ensures LinkWritten(sh, tbl, tbl[Cell(pr.tabs, top, t) := Huft(width, sh.l, hn - Cell(pr.tabs, top, t))],
                        pr.tabs, pr.stack, pr.code, hn, width)
  {
  }

  /** `q` and `z` are the place and the size of the last table on the path. */
  ghost predicate OnLast(pr: Progress, q: nat, z: nat) {
    && pr.stack != []
    && var top := pr.stack[|pr.stack| - 1];
       top in pr.tabs && q == pr.tabs[top].start && z == Pow2(pr.tabs[top].width)
  }

  lemma {:induction false} CellBelow(sh: Shape, tabs: Tabs, hn0: nat, hn: nat, top: seq<bool>, t: seq<bool>)
    requires Layout(sh, tabs, hn0, hn) && top in tabs && |t| <= tabs[top].width
    ensures hn0 <= Cell(tabs, top, t) < hn
  {
    hide Lsb, Pow2;
    LsbBound(t);
    Pow2Monotone(|t|, tabs[top].width);
  }

  /** Where the link to the next table goes. */
  lemma {:induction false} LinkPlace(sh: Shape, tbl: seq<Huft>, hn0: nat, hn: nat, pr: Progress, u: seq<nat>, x: seq<nat>, h: int, w: int, width: nat) returns (cell: nat)
    requires sh.l > 0 && Layout(sh, pr.tabs, hn0, hn) && hn <= |tbl|
    requires Regs(sh, pr, u, x, h, w) && h >= 0
    requires MayOpen(sh, pr.tabs, pr.stack, pr.code, width)
    ensures w >= 0 && hn0 <= cell < hn <= |tbl| && u[h] + Lsb(pr.code) / Pow2(w) == cell
    ensures Lsb(pr.code) == Lsb(pr.code[..Depth(sh, pr.stack)])
    ensures LinkWritten(sh, tbl, tbl[cell := Huft(width, sh.l, hn - cell)], pr.tabs, pr.stack, pr.code, hn, width)
  {
    var top := pr.stack[|pr.stack| - 1];
    var t := pr.code[|top|..Depth(sh, pr.stack)];
    hide Fits, Aligned, AllOnStack, Steps, Lsb, Pow2, Apart;
    cell := Cell(pr.tabs, top, t);
    assert w == |top| && u[h] == pr.tabs[top].start;
    LinkIndex(sh, pr);
    CellBelow(sh, pr.tabs, hn0, hn, top, t);
    hide Layout, LinkWritten, Regs;
    LinkWrittenAt(sh, tbl, pr, hn, width, top, t);
  }

  lemma {:induction false} NoLink(sh: Shape, tbl: seq<Huft>, pr: Progress, u: seq<nat>, x: seq<nat>, h: int, w: int, hn: nat, width: nat)
    requires sh.l > 0 && Regs(sh, pr, u, x, h, w) && h < 0
    requires MayOpen(sh, pr.tabs, pr.stack, pr.code, width)
    ensures LinkWritten(sh, tbl, tbl, pr.tabs, pr.stack, pr.code, hn, width)
    ensures Lsb(pr.code[..Depth(sh, pr.stack)]) == 0
  {
  }

  /**
    Allocates the next table on the path of the code of length `k` whose reversed value
    is `i`, and links it to the table above; `r` is the entry register.
   */
  method OpenTable(hp: array<Huft>, hn: nat, c: array<nat>, g: nat, l: nat, k: nat, a: nat, i: nat,
                   u: seq<nat>, x: seq<nat>, h: int, w: int, r: Huft,
                   ghost sh: Shape, ghost hn0: nat, ghost pr: Progress)
    returns (ok: bool, hn': nat, u': seq<nat>, x': seq<nat>, z: nat, r': Huft, ghost pr': Progress)
    requires Ready(sh, hp[..], hn0, hn, pr, k, i, a) && sh.g == g && sh.l == l
    requires c.Length == BMAX + 1 && forall t :: 1 <= t <= g ==> c[t] == Cap(sh, t)
    requires Regs(sh, pr, u, x, h, w) && k > w + l && MANY <= hp.Length
    modifies hp
    ensures hp[..hn0] == old(hp[..hn0])
    ensures !ok ==> hn' == hn && (Skips(sh) || hn0 + Space(sh) > MANY)
    ensures ok ==> Ready(sh, hp[..], hn0, hn', pr', k, i, a) && Regs(sh, pr', u', x', h + 1, w + l)
    ensures ok ==> hn < hn' <= MANY && OnLast(pr', hn, z) && pr'.code == pr.code && pr'.orig == pr.orig
    ensures h < 0 ==> r' == r
  {
    hide Inv, MayOpen, LinkWritten, Path, Layout, CanOpen, Ready, ValidShape, Fits, Regs, OnLast, Lo, CapEnd, Opened;
    ok, hn', u', x', z, r', pr' := true, hn, u, x, 0, r, pr;
    ghost var was := hp[..];
    OpenFacts(sh, was, hn0, hn, pr, k, i, a, u, x, h, w);
    var j := ChooseWidth(c, g, l, k, w + l, a, sh, pr.code[..Depth(sh, pr.stack)]);
    ReadyCanOpen(sh, was, hn0, hn, pr, k, i, a, w, j);
    ReadyMayOpen(sh, was, hn0, hn, pr, k, i, a, j);
    z := Pow2(j);
    if hn + z > MANY {
      OutOfSpace(sh, was, hn0, hn, pr, k, i, a, j);
      ok := false;
      return;
    }
    RegsOpened(sh, pr, u, x, h, w, hn, j);
    u', hn' := u[h + 1 := hn], hn + z;
    if h >= 0 {
      ghost var cell := LinkPlace(sh, was, hn0, hn, pr, u, x, h, w, j);
      x', r' := WriteLink(hp, hn, l, i, j, u, x, h, w, cell);
      Kept(was, hp[..], hn0, cell);
    } else {
      NoLink(sh, was, pr, u, x, h, w, hn, j);
      x' := x[0 := 0];
    }
    pr' := Opened(sh, pr, hn, j);
    ReadyOpened(sh, was, hp[..], hn0, hn, pr, k, i, a, j, hn');
    OpenedIsLast(sh, pr, hn, j);
  }

  /** Space runs out only if a level is skipped or there is less of it than suffices. */
  lemma {:induction false} OutOfSpace(sh: Shape, tbl: seq<Huft>, hn0: nat, hn: nat, pr: Progress, k: nat, i: nat, a: nat, width: nat)
    requires Ready(sh, tbl, hn0, hn, pr, k, i, a) && CanOpen(sh, hn0, hn, pr, width) && hn + Pow2(width) > MANY
    requires Paid(sh, pr.code[..Depth(sh, pr.stack)], k, a, width)
    ensures Skips(sh) || hn0 + Space(sh) > MANY
  {
    hide Inv, Lo, CapEnd, Skips, Thrifty, Paid, Space;
    ReadyIsPaid(sh, tbl, hn0, hn, pr, k, i, a, width);
    WithinSpace(sh, hn0, hn + Pow2(width), pr.stack + [pr.code[..Depth(sh, pr.stack)]], Lo(pr.code));
  }

  lemma {:induction false} OpenedIsLast(sh: Shape, pr: Progress, hn: nat, width: nat)
    requires Depth(sh, pr.stack) <= |pr.code|
    ensures OnLast(Opened(sh, pr, hn, width), hn, Pow2(width))
    ensures Opened(sh, pr, hn, width).code == pr.code && Opened(sh, pr, hn, width).orig == pr.orig
  {
  }

  /** What the choice of a width and the link need to know. */
  lemma {:induction false} OpenFacts(sh: Shape, tbl: seq<Huft>, hn0: nat, hn: nat, pr: Progress, k: nat, i: nat, a: nat, u: seq<nat>, x: seq<nat>, h: int, w: int)
    requires Ready(sh, tbl, hn0, hn, pr, k, i, a) && Regs(sh, pr, u, x, h, w) && k > w + sh.l
    ensures ValidShape(sh) && |pr.code| == k && k <= sh.g <= BMAX && i == Lsb(pr.code) && hn0 <= hn <= |tbl|
    ensures w + sh.l == Depth(sh, pr.stack) < k && |u| == BMAX && |x| == BMAX + 1 && -1 <= h && h == |pr.stack| - 1
    ensures Path(sh, pr.tabs, pr.stack, pr.code) && Layout(sh, pr.tabs, hn0, hn)
    ensures Lo(pr.code[..Depth(sh, pr.stack)]) + (a + 1) * Size(k) == CapEnd(sh, k)
  {
    LoOfNewTable(sh, pr);
  }

  lemma {:induction false} ReadyCanOpen(sh: Shape, tbl: seq<Huft>, hn0: nat, hn: nat, pr: Progress, k: nat, i: nat, a: nat, w: int, width: nat)
    requires Ready(sh, tbl, hn0, hn, pr, k, i, a) && w + sh.l == Depth(sh, pr.stack) < k
    requires 1 <= width && Depth(sh, pr.stack) + width <= sh.g && Fits(sh, pr.code[..Depth(sh, pr.stack)], width)
    requires k <= Depth(sh, pr.stack) + sh.l ==> width <= sh.l
    requires k - Depth(sh, pr.stack) <= width
    ensures CanOpen(sh, hn0, hn, pr, width)
  {
    hide Inv, Fits, Lo, CapEnd;
  }

  /** Links the new table at `hn` from the entry of the table above that the code leads to. */
  method WriteLink(hp: array<Huft>, hn: nat, l: nat, i: nat, j: nat, u: seq<nat>, x: seq<nat>, h: nat, w: nat, ghost cell: nat)
    returns (x': seq<nat>, r: Huft)
    requires h + 1 < |x| && h < |u| && u[h] + i / Pow2(w) == cell < hn <= hp.Length
    modifies hp
    ensures hp[..] == old(hp[..])[cell := Huft(j, l, hn - cell)]
    ensures x' == x[h + 1 := i]
  {
    x' := x[h + 1 := i];
    var at := i / Pow2(w);
    r := Huft(j, l, hn - u[h] - at);
    hp[u[h] + at] := r;
  }

  lemma {:induction false} Kept(was: seq<Huft>, now: seq<Huft>, n: nat, cell: nat)
    requires n <= cell < |was| && |now| == |was| && now == was[cell := now[cell]]
    ensures now[..n] == was[..n]
  {
  }

  lemma {:induction false} LoOfNewTable(sh: Shape, pr: Progress)
    requires sh.l > 0 && Path(sh, pr.tabs, pr.stack, pr.code) && Depth(sh, pr.stack) < |pr.code| <= BMAX
    ensures Lo(pr.code[..Depth(sh, pr.stack)]) == Lo(pr.code)
  {
    NextTableIsNew(sh, pr.tabs, pr.stack, pr.code);
  }

  // ----- one code ----------------------------------------------------------------

  /** `n` codes of length `k` are still to be laid out, the next one at `pos` in code space. */
  ghost predicate Between(sh: Shape, tbl: seq<Huft>, hn0: nat, hn: nat, pr: Progress, k: nat, i: nat, n: nat, pos: nat) {
    && Inv(sh, tbl, hn0, hn, pr, pos)
    && |pr.code| == k && 1 <= k <= sh.g && i == Lsb(pr.code)
    && n <= Cap(sh, k)
    && pos + n * Size(k) == CapEnd(sh, k)
    && (pr.stack == [] ==> k <= sh.l && hn == hn0)
    && Thrifty(sh, hn0, hn, pr.stack, pos)
  }

  /** How many codes of length `k` came before this one. */
  ghost function Index(sh: Shape, code: seq<bool>): (m: int) {
    Msb(code) - NextCode(sh.lens, |code|)
  }

  lemma {:induction false} BetweenIsReady(sh: Shape, tbl: seq<Huft>, hn0: nat, hn: nat, pr: Progress, k: nat, i: nat, n: nat, pos: nat)
    requires Between(sh, tbl, hn0, hn, pr, k, i, n, pos) && n > 0
    ensures Ready(sh, tbl, hn0, hn, pr, k, i, n - 1) && Lo(pr.code) == pos
    ensures Index(sh, pr.code) == Cap(sh, k) - n >= 0
    ensures ValidShape(sh) && k <= BMAX && hn0 <= hn <= |tbl|
  {
    hide Layout, Path, Entries, Skips, RootOK;
    CapEndMonotone(sh, k, sh.g);
    CapEndLast(sh);
    MulOrder(0, n, Size(k));
    assert Lo(pr.code) == pos;
    CodeAt(NextCode(sh.lens, k) + Cap(sh, k), n, Msb(pr.code), Size(k));
  }

  lemma {:induction false} Followers(sh: Shape, code: seq<bool>, a: nat)
    requires IsCode(sh, code) && |code| <= BMAX && Lo(code) + (a + 1) * Size(|code|) == CapEnd(sh, |code|)
    ensures a + 1 <= Cap(sh, |code|)
  {
    CodeAt(NextCode(sh.lens, |code|) + Cap(sh, |code|), a + 1, Msb(code), Size(|code|));
  }

  lemma {:induction false} CodeAt(end: int, n: nat, code: nat, u: nat)
    requires u > 0 && code * u + n * u == end * u
    ensures code == end - n
  {
    MulDistributes(end, n, u);
    MulOrder(end - n, code, u);
    MulOrder(code, end - n, u);
  }

  /** With a single table, the entry register keeps the base of the last symbol among the `m` codes laid out. */
  ghost predicate LastBase(sh: Shape, k: nat, m: int, base: nat)
    requires ValidShape(sh)
  {
    sh.l == sh.g && 0 < m && Count(sh.lens, k) > 0 ==>
      base == BaseOf(sh.alpha, NthSym(sh.lens, k, (if m < Count(sh.lens, k) then m else Count(sh.lens, k)) - 1))
  }

  /** How far the value table has been read when `m` codes of length `k` are laid out. */
  ghost function ValuesRead(sh: Shape, k: nat, m: int): (p: int) {
    Off(sh.lens, k) + if m < Count(sh.lens, k) then m else Count(sh.lens, k)
  }

  lemma {:induction false} ValuesLeft(sh: Shape, k: nat, m: nat)
    requires ValidShape(sh) && 1 <= k <= sh.g && m < Cap(sh, k)
    ensures ValuesRead(sh, k, m) < Off(sh.lens, sh.g) + Count(sh.lens, sh.g) <==> m < Count(sh.lens, k)
  {
    MaxLenCount(sh.lens, sh.g);
    if k < sh.g {
      OffMonotone(sh.lens, k, sh.g);
    }
  }

  lemma {:induction false} SymbolLeaf(sh: Shape, code: seq<bool>, v: seq<nat>, p: nat)
    requires ValidShape(sh) && IsCode(sh, code) && Sorted(sh.lens, v)
    requires Index(sh, code) < Count(sh.lens, |code|) && p == Off(sh.lens, |code|) + Index(sh, code)
    ensures p < |v| && v[p] < |sh.lens|
    ensures GoodLeaf(sh, code, ExopOf(sh.alpha, v[p]), BaseOf(sh.alpha, v[p]))
    ensures LastBase(sh, |code|, Index(sh, code) + 1, BaseOf(sh.alpha, v[p]))
  {
    hide Sorted, Kraft, NextCode, Cap, Msb, Count;
    SortedNth(sh.lens, v, |code|, Index(sh, code));
  }

  lemma {:induction false} DummyLeaf(sh: Shape, code: seq<bool>, base: nat)
    requires ValidShape(sh) && IsCode(sh, code)
    requires Index(sh, code) >= Count(sh.lens, |code|)
    requires LastBase(sh, |code|, Index(sh, code), base)
    ensures GoodLeaf(sh, code, INVALID, base)
    ensures LastBase(sh, |code|, Index(sh, code) + 1, base)
  {
    MaxLenCount(sh.lens, sh.g);
  }

  /**
    The entry for the next symbol in order of code length, or an invalid one when they are used
    up; `m` codes of length `k` came before.
   */
  method LeafEntry(v: array<nat>, n: nat, p: nat, alpha: Alphabet, bits: nat, r: Huft, ghost sh: Shape, ghost code: seq<bool>, ghost k: nat, ghost m: nat, ghost m': nat)
    returns (r': Huft, p': nat)
    requires ValidShape(sh) && sh.alpha == alpha && IsCode(sh, code)
    requires k == |code| && m == Index(sh, code) && m' == m + 1
    requires Sorted(sh.lens, v[..]) && n == Off(sh.lens, sh.g) + Count(sh.lens, sh.g)
    requires p == ValuesRead(sh, k, m) && LastBase(sh, k, m, r.base)
    ensures r'.bits == bits && !IsLink(r') && GoodLeaf(sh, code, r'.exop, r'.base)
    ensures p' == ValuesRead(sh, k, m') && LastBase(sh, k, m', r'.base)
  {
    ValuesLeft(sh, k, m);
    p' := p;
    if p >= n {
      DummyLeaf(sh, code, r.base);
      r' := Huft(INVALID, bits, r.base);
    } else {
      SymbolLeaf(sh, code, v[..], p);
      var sym := v[p];
      r' := SymbolEntry(alpha, sym, bits, |sh.lens|);
      p' := p + 1;
    }
  }

  method SymbolEntry(alpha: Alphabet, sym: nat, bits: nat, ghost symbols: nat) returns (r: Huft)
    requires ValidAlphabet(alpha, symbols) && sym < symbols
    ensures r == Huft(ExopOf(alpha, sym), bits, BaseOf(alpha, sym)) && !IsLink(r)
  {
    LeafIsNoLink(alpha, symbols, sym);
    if sym < alpha.simple {
      r := Huft(if sym < 256 then 0 else 32 + 64, bits, sym);
    } else {
      r := Huft(alpha.extra[sym - alpha.simple] + 16 + 64, bits, alpha.base[sym - alpha.simple]);
    }
  }

  lemma {:induction false} ModGap(t: nat, j: nat, f: nat)
    requires f > 0 && j < t < j + f
    ensures t % f != j % f
  {
    var s, d := j % f, t - j;
    if s + d < f {
      DivModUnique(t, f, j / f, s + d);
    } else {
      DivModUnique(t, f, j / f + 1, s + d - f);
    }
  }

  /** Repeats `r` in the table at `q` every `f` entries, starting from entry `s`. */
  method FillEntries(hp: array<Huft>, q: nat, z: nat, f: nat, s: nat, r: Huft)
    requires q + z <= hp.Length && s < f
    modifies hp
    ensures FilledEvery(old(hp[..]), hp[..], q, z, f, s, r)
  {
    var j := s;
    DivModUnique(s, f, 0, s);
    while j < z
      invariant j % f == s && j >= s
      invariant forall t :: 0 <= t < hp.Length ==>
                  hp[t] == if q <= t < q + z && t < q + j && OnStride(t, q, f, s) then r else old(hp[t])
    {
      hp[q + j] := r;
      ModStep(j, f);
      forall t | q + j < t < q + j + f
        ensures !OnStride(t, q, f, s)
      {
        ModGap(t - q, j, f);
      }
      j := j + f;
    }
  }

  // ----- the next code in reversed form ---------------------------------------------

  lemma {:induction false} TopBit(c: seq<bool>)
    requires c != []
    ensures var n := |c| - 1;
            && Lsb(c) == Lsb(c[..n]) + (if c[n] then Pow2(n) else 0)
            && (Lsb(c) / Pow2(n)) % 2 == Weight(c[n])
            && Lsb(Succ(c)) == if c[n] then Lsb(Succ(c[..n])) else Lsb(c) + Pow2(n)
  {
    var n := |c| - 1;
    assert c == c[..n] + [c[n]];
    LsbConcat(c[..n], [c[n]]);
    LsbBound(c[..n]);
    assert Lsb([c[n]]) == Weight(c[n]);
    DivModUnique(Lsb(c), Pow2(n), Weight(c[n]), Lsb(c[..n]));
    if c[n] {
      LsbConcat(Succ(c[..n]), [false]);
      assert Lsb([false]) == 0;
    } else {
      LsbConcat(c[..n], [true]);
      assert Lsb([true]) == 1;
    }
  }

  /** Increments the reversed code `i` of length `k`. */
  method BackwardIncrement(i: nat, k: nat, ghost code: seq<bool>) returns (i': nat)
    requires 1 <= k == |code| && i == Lsb(code)
    ensures i' == Lsb(Succ(code))
  {
    i' := i;
    var j := Pow2(k - 1);
    ghost var t := k;
    assert code[..k] == code;
    while j > 0 && (i' / j) % 2 == 1
      invariant 0 <= t <= k && j == (if t == 0 then 0 else Pow2(t - 1))
      invariant i' == Lsb(code[..t]) && Lsb(Succ(code)) == Lsb(Succ(code[..t]))
      decreases t
    {
      assert code[..t][..t - 1] == code[..t - 1];
      TopBit(code[..t]);
      i' := i' - j;
      j := j / 2;
      t := t - 1;
    }
    if t > 0 {
      TopBit(code[..t]);
    }
    i' := i' + j;
  }

  /** Drops the tables that the next code, reversed value `i`, has left: they are finished. */
  method Backup(i: nat, x: seq<nat>, h: nat, w: nat, l: nat, ghost stack: seq<seq<bool>>, ghost code: seq<bool>)
    returns (h': nat, w': nat)
    requires |stack| == h + 1 <= |x| && stack[0] == [] && w == |stack[h]|
    requires forall t :: 0 <= t <= h ==> x[t] == Lsb(stack[t]) && |stack[t]| <= |code|
    requires forall t :: 0 <= t < h ==> |stack[t + 1]| == |stack[t]| + l
    requires i == Lsb(code)
    ensures h' <= h && w' == |stack[h']| && Popped(stack, code, h' + 1)
  {
    h', w' := h, w;
    OnStack(code, stack[h]);
    while i % Pow2(w') != x[h']
      invariant h' <= h && w' == |stack[h']|
      invariant i % Pow2(w') == x[h'] <==> stack[h'] <= code
      invariant h' < h ==> !(stack[h' + 1] <= code)
      decreases h'
    {
      assert h' > 0 by {
        assert stack[0] <= code;
      }
      assert |stack[h' - 1 + 1]| == |stack[h' - 1]| + l;
      h', w' := h' - 1, w' - l;
      OnStack(code, stack[h']);
    }
  }

  lemma {:induction false} OnStack(code: seq<bool>, p: seq<bool>)
    requires |p| <= |code|
    ensures Lsb(code) % Pow2(|p|) == Lsb(p) <==> p <= code
  {
    LsbSplit(code, |p|);
    if Lsb(code[..|p|]) == Lsb(p) {
      LsbInjective(code[..|p|], p);
    }
    if p <= code {
      assert code[..|p|] == p;
    }
  }

  // ----- laying out one code ----------------------------------------------------------

  /** Unless a table must be opened first, `q` and `z` are the place and size of the last table on the path. */
  ghost predicate TableRegs(sh: Shape, pr: Progress, w: int, q: nat, z: nat, k: nat) {
    k <= w + sh.l ==> OnLast(pr, q, z)
  }

  lemma {:induction false} OpenBounds(sh: Shape, tbl: seq<Huft>, hn0: nat, hn: nat, pr: Progress, k: nat, i: nat, a: nat, u: seq<nat>, x: seq<nat>, h: int, w: int)
    requires Ready(sh, tbl, hn0, hn, pr, k, i, a) && Regs(sh, pr, u, x, h, w)
    ensures 1 <= sh.l <= sh.g && k <= sh.g && hn0 <= hn <= |tbl| && -1 <= h && (h >= 0 ==> w >= 0)
  {
    hide Layout, Path, Entries, Skips, RootOK, Traced, Thrifty, CapEnd, Lo;
  }

  /** Opens tables until the last one on the path takes the code. */
  method OpenTables(hp: array<Huft>, hn: nat, c: array<nat>, g: nat, l: nat, k: nat, a: nat, i: nat,
                    u: seq<nat>, x: seq<nat>, h: int, w: int, q: nat, z: nat, r: Huft,
                    ghost sh: Shape, ghost hn0: nat, ghost pr: Progress)
    returns (ok: bool, hn': nat, u': seq<nat>, x': seq<nat>, h': int, w': int, q': nat, z': nat, r': Huft, ghost pr': Progress)
    requires Ready(sh, hp[..], hn0, hn, pr, k, i, a) && sh.g == g && sh.l == l
    requires c.Length == BMAX + 1 && forall t :: 1 <= t <= g ==> c[t] == Cap(sh, t)
    requires Regs(sh, pr, u, x, h, w) && TableRegs(sh, pr, w, q, z, k) && hn <= MANY <= hp.Length
    modifies hp
    ensures hp[..hn0] == old(hp[..hn0])
    ensures !ok ==> hn <= hn' <= hp.Length && (Skips(sh) || hn0 + Space(sh) > MANY)
    ensures ok ==> Ready(sh, hp[..], hn0, hn', pr', k, i, a) && Regs(sh, pr', u', x', h', w')
    ensures ok ==> k <= w' + l && OnLast(pr', q', z') && pr'.code == pr.code && pr'.orig == pr.orig && hn' <= MANY
    ensures l == g ==> r' == r
  {
    hide Ready, Regs, OnLast, ValidShape, Skips, Space, Cap;
    ok, hn', u', x', h', w', q', z', r', pr' := true, hn, u, x, h, w, q, z, r, pr;
    OpenBounds(sh, hp[..], hn0, hn, pr, k, i, a, u, x, h, w);
    while k > w' + l
      invariant Ready(sh, hp[..], hn0, hn', pr', k, i, a) && hn <= hn' <= MANY && pr'.code == pr.code && pr'.orig == pr.orig
      invariant Regs(sh, pr', u', x', h', w') && TableRegs(sh, pr', w', q', z', k)
      invariant hp[..hn0] == old(hp[..hn0])
      invariant l == g ==> r' == r
      decreases k - w'
    {
      OpenBounds(sh, hp[..], hn0, hn', pr', k, i, a, u', x', h', w');
      q' := hn';
      ok, hn', u', x', z', r', pr' := OpenTable(hp, hn', c, g, l, k, a, i, u', x', h', w', r', sh, hn0, pr');
      if !ok {
        return;
      }
      h', w' := h' + 1, w' + l;
    }
  }

  lemma {:induction false} ReadyFacts(sh: Shape, tbl: seq<Huft>, hn0: nat, hn: nat, pr: Progress, k: nat, i: nat, a: nat)
    requires Ready(sh, tbl, hn0, hn, pr, k, i, a)
    ensures ValidShape(sh) && |pr.code| == k && 1 <= k <= sh.g && IsCode(sh, pr.code) && i == Lsb(pr.code)
    ensures Path(sh, pr.tabs, pr.stack, pr.code) && Layout(sh, pr.tabs, hn0, hn) && hn0 <= hn <= |tbl|
    ensures pr.stack != [] ==> |pr.stack[|pr.stack| - 1]| < k && pr.stack[|pr.stack| - 1] <= pr.code
  {
  }

  lemma {:induction false} FillWidth(sh: Shape, tbl: seq<Huft>, hn0: nat, hn: nat, pr: Progress, k: nat, i: nat, a: nat)
    requires Ready(sh, tbl, hn0, hn, pr, k, i, a) && pr.stack != [] && k <= Depth(sh, pr.stack)
    ensures k <= |pr.stack[|pr.stack| - 1]| + pr.tabs[pr.stack[|pr.stack| - 1]].width
  {
    MulOrder(NextCode(sh.lens, k), Msb(pr.code), Size(k));
    TopIsWideEnough(sh, pr.tabs, hn0, hn, pr.stack, pr.code);
  }

  lemma {:induction false} FillPlace(sh: Shape, hn0: nat, hn: nat, pr: Progress, k: nat, w: int, q: nat, z: nat)
    requires Layout(sh, pr.tabs, hn0, hn) && OnLast(pr, q, z)
    requires |pr.code| == k && w == Depth(sh, pr.stack) - sh.l && pr.stack[|pr.stack| - 1] <= pr.code
    requires |pr.stack[|pr.stack| - 1]| < k
    ensures 0 <= w == |pr.stack[|pr.stack| - 1]| && hn0 <= q && q + z <= hn
    ensures Lsb(pr.code) / Pow2(w) == Lsb(pr.code[w..]) < Pow2(k - w)
  {
    LsbSplit(pr.code, w);
    LsbBound(pr.code[w..]);
    assert |pr.code[w..]| == k - w;
  }

  lemma {:induction false} FillFrame(sh: Shape, tbl: seq<Huft>, tbl': seq<Huft>, tabs: Tabs, hn0: nat, hn: nat, p: seq<bool>, tail: seq<bool>, e: Huft)
    requires Layout(sh, tabs, hn0, hn) && hn <= |tbl| && p in tabs && FilledTail(tbl, tbl', tabs[p], tail, e)
    ensures |tbl'| == |tbl| && tbl'[hn..] == tbl[hn..]
  {
  }

  lemma {:induction false} FilledIsCanFill(sh: Shape, tbl: seq<Huft>, tbl': seq<Huft>, hn0: nat, hn: nat, pr: Progress, k: nat, i: nat, a: nat, q: nat, z: nat, e: Huft)
    requires Ready(sh, tbl, hn0, hn, pr, k, i, a) && OnLast(pr, q, z) && k <= Depth(sh, pr.stack)
    requires var p := pr.stack[|pr.stack| - 1];
             && |p| < k <= |p| + pr.tabs[p].width
             && FilledTail(tbl, tbl', pr.tabs[p], pr.code[|p|..], e)
             && e.bits == k - |p|
    requires !IsLink(e) && GoodLeaf(sh, pr.code, e.exop, e.base)
    ensures CanFill(sh, tbl, tbl', hn0, hn, pr, e)
  {
    hide Layout, Path, GoodLeaf, CellsFilled, FilledTail, Entries, Traced, Skips, RootOK, Thrifty, CapEnd, Kraft, ValidLengths, IsCode;
    var p := pr.stack[|pr.stack| - 1];
    FillFrame(sh, tbl, tbl', pr.tabs, hn0, hn, p, pr.code[|p|..], e);
    FilledTailCells(sh, tbl, tbl', pr.tabs, hn0, hn, p, pr.code[|p|..], e);
  }

  /** Fills the entries of the current code with `r`. */
  method FillCode(hp: array<Huft>, k: nat, i: nat, w: int, q: nat, z: nat, r: Huft,
                  ghost sh: Shape, ghost hn0: nat, ghost hn: nat, ghost pr: Progress, ghost a: nat)
    requires Ready(sh, hp[..], hn0, hn, pr, k, i, a) && OnLast(pr, q, z)
    requires w == Depth(sh, pr.stack) - sh.l && k <= w + sh.l
    requires r.bits == k - w && !IsLink(r) && GoodLeaf(sh, pr.code, r.exop, r.base)
    modifies hp
    ensures hp[..hn0] == old(hp[..hn0])
    ensures CanFill(sh, old(hp[..]), hp[..], hn0, hn, pr, r)
  {
    hide Inv, GoodLeaf, CanFill, Path, Ready, ValidShape, Layout;
    ghost var was := hp[..];
    ReadyFacts(sh, was, hn0, hn, pr, k, i, a);
    FillWidth(sh, was, hn0, hn, pr, k, i, a);
    FillPlace(sh, hn0, hn, pr, k, w, q, z);
    FillEntries(hp, q, z, Pow2(k - w), i / Pow2(w), r);
    assert |pr.code[w..]| == k - w && w == |pr.stack[|pr.stack| - 1]|;
    FilledIsCanFill(sh, was, hp[..], hn0, hn, pr, k, i, a, q, z, r);
  }

  lemma {:induction false} StepIsBetween(sh: Shape, tbl: seq<Huft>, tbl': seq<Huft>, hn0: nat, hn: nat, pr: Progress, k: nat, i: nat, a: nat, e: Huft, n: nat)
    requires Ready(sh, tbl, hn0, hn, pr, k, i, a) && CanFill(sh, tbl, tbl', hn0, hn, pr, e)
    requires Popped(pr.stack, Succ(pr.code), n) && a + 1 <= Cap(sh, k)
    ensures Between(sh, tbl', hn0, hn, Advanced(pr, n), k, Lsb(Succ(pr.code)), a, Lo(pr.code) + Size(k))
  {
    hide Inv, CanFill, IsCode, Path, Layout, Lo, CapEnd, Cap, Size, ValidShape, Thrifty;
    ReadyFacts(sh, tbl, hn0, hn, pr, k, i, a);
    AdvanceKeepsInv(sh, tbl, tbl', hn0, hn, pr, e, n);
    MulDistributes(a, 1, Size(k));
    StepKeepsThrifty(sh, pr.tabs, pr.stack, pr.code, n, hn0, hn, Lo(pr.code) + Size(k));
  }

  lemma {:induction false} RegsBack(sh: Shape, pr: Progress, u: seq<nat>, x: seq<nat>, h: int, w: int, q: nat, z: nat, k: nat, h': nat)
    requires sh.l > 0 && Path(sh, pr.tabs, pr.stack, pr.code) && Regs(sh, pr, u, x, h, w) && h' <= h
    requires OnLast(pr, q, z) && w < k
    ensures Regs(sh, Advanced(pr, h' + 1), u, x, h', |pr.stack[h']|)
    ensures TableRegs(sh, Advanced(pr, h' + 1), |pr.stack[h']|, q, z, k)
  {
    hide OnCode, AllOnStack, Lsb;
    var pr' := Advanced(pr, h' + 1);
    if h' < h {
      assert |pr.stack[h' + 1]| == |pr.stack[h']| + sh.l;
      StackGrows(sh, pr.tabs, pr.stack, pr.code, h' + 1, h);
    } else {
      assert pr'.stack == pr.stack;
    }
  }

  /** Increments the code and leaves the tables it has finished. */
  method NextCodeUp(i: nat, k: nat, l: nat, u: seq<nat>, x: seq<nat>, h: int, w: int, ghost q: nat, ghost z: nat, ghost sh: Shape, ghost pr: Progress)
    returns (i': nat, h': nat, w': nat)
    requires sh.l == l && sh.l > 0 && Path(sh, pr.tabs, pr.stack, pr.code) && Regs(sh, pr, u, x, h, w)
    requires OnLast(pr, q, z) && w < k == |pr.code| && 1 <= k && i == Lsb(pr.code)
    ensures i' == Lsb(Succ(pr.code)) && h' < |pr.stack|
    ensures Popped(pr.stack, Succ(pr.code), h' + 1)
    ensures Regs(sh, Advanced(pr, h' + 1), u, x, h', w')
    ensures TableRegs(sh, Advanced(pr, h' + 1), w', q, z, k)
  {
    i' := BackwardIncrement(i, k, pr.code);
    h', w' := Backup(i', x, h, w, l, pr.stack, Succ(pr.code));
    RegsBack(sh, pr, u, x, h, w, q, z, k, h');
  }

  /** The registers of the loop over codes. */
  datatype Loop = Loop(hn: nat, i: nat, p: nat, h: int, w: int, q: nat, z: nat, u: seq<nat>, x: seq<nat>, r: Huft)

  ghost predicate LoopInv(sh: Shape, tbl: seq<Huft>, hn0: nat, s: Loop, pr: Progress, k: nat, n: nat, pos: nat) {
    && Between(sh, tbl, hn0, s.hn, pr, k, s.i, n, pos)
    && Regs(sh, pr, s.u, s.x, s.h, s.w)
    && TableRegs(sh, pr, s.w, s.q, s.z, k)
    && s.p == ValuesRead(sh, k, Cap(sh, k) - n)
    && LastBase(sh, k, Cap(sh, k) - n, s.r.base)
    && s.hn <= MANY
  }

  lemma {:induction false} LoopStepped(sh: Shape, tbl: seq<Huft>, tbl': seq<Huft>, hn0: nat, s: Loop, s': Loop, pr: Progress, k: nat, a: nat, h: nat, pos: nat)
    requires Ready(sh, tbl, hn0, s.hn, pr, k, s.i, a) && CanFill(sh, tbl, tbl', hn0, s.hn, pr, s'.r)
    requires h < |pr.stack| && Popped(pr.stack, Succ(pr.code), h + 1) && a + 1 <= Cap(sh, k) && pos == Lo(pr.code)
    requires s' == s.(i := Lsb(Succ(pr.code)), p := s'.p, h := h, w := s'.w, r := s'.r)
    requires Regs(sh, Advanced(pr, h + 1), s.u, s.x, h, s'.w) && TableRegs(sh, Advanced(pr, h + 1), s'.w, s.q, s.z, k)
    requires s'.p == ValuesRead(sh, k, Cap(sh, k) - a) && LastBase(sh, k, Cap(sh, k) - a, s'.r.base) && s.hn <= MANY
    ensures LoopInv(sh, tbl', hn0, s', Advanced(pr, h + 1), k, a, pos + Size(k))
    ensures Advanced(pr, h + 1).stack != [] && Advanced(pr, h + 1).orig == pr.orig
  {
    hide Inv, CanFill;
    StepIsBetween(sh, tbl, tbl', hn0, s.hn, pr, k, s.i, a, s'.r, h + 1);
  }

  /** The tables on the path of the next code, the one after `m` of its length, are all open. */
  ghost predicate TablesOpen(sh: Shape, tbl: seq<Huft>, hn0: nat, s: Loop, pr: Progress, k: nat, a: nat, m: nat, pos: nat) {
    && Ready(sh, tbl, hn0, s.hn, pr, k, s.i, a)
    && Regs(sh, pr, s.u, s.x, s.h, s.w) && OnLast(pr, s.q, s.z) && k <= s.w + sh.l
    && m == Index(sh, pr.code) == Cap(sh, k) - (a + 1) && pos == Lo(pr.code)
    && s.p == ValuesRead(sh, k, m) && LastBase(sh, k, m, s.r.base) && s.hn <= MANY
  }

  /** With its tables in place, fills the entries of the code and steps to the next one. */
  method FinishCode(hp: array<Huft>, s: Loop, v: array<nat>, values: nat, alpha: Alphabet, l: nat, k: nat,
                    ghost sh: Shape, ghost hn0: nat, ghost pr: Progress, ghost a: nat, ghost m: nat, ghost pos: nat)
    returns (s': Loop, ghost pr': Progress)
    requires TablesOpen(sh, hp[..], hn0, s, pr, k, a, m, pos) && sh.l == l && sh.alpha == alpha
    requires Sorted(sh.lens, v[..]) && values == Off(sh.lens, sh.g) + Count(sh.lens, sh.g)
    requires k <= BMAX && hn0 <= hp.Length
    modifies hp
    ensures hp[..hn0] == old(hp[..hn0])
    ensures LoopInv(sh, hp[..], hn0, s', pr', k, a, pos + Size(k)) && pr'.stack != [] && pr'.orig == pr.orig
  {
    hide Inv, GoodLeaf, Sorted, CanFill, LoopInv, Path, Popped, Ready, LastBase, ValidShape, Advanced, Layout, IsCode;
    ReadyFacts(sh, hp[..], hn0, s.hn, pr, k, s.i, a);
    var r, p := LeafEntry(v, values, s.p, alpha, k - s.w, s.r, sh, pr.code, k, m, Cap(sh, k) - a);
    ghost var was := hp[..];
    FillCode(hp, k, s.i, s.w, s.q, s.z, r, sh, hn0, s.hn, pr, a);
    var i, h, w := NextCodeUp(s.i, k, l, s.u, s.x, s.h, s.w, s.q, s.z, sh, pr);
    s' := s.(i := i, p := p, h := h, w := w, r := r);
    LoopStepped(sh, was, hp[..], hn0, s, s', pr, k, a, h, pos);
    pr' := Advanced(pr, h + 1);
  }

  /** Lays out the next of the codes of length `k`, of which `a` more follow. */
  method LayOutCode(hp: array<Huft>, s: Loop, c: array<nat>, v: array<nat>, values: nat, alpha: Alphabet, g: nat, l: nat, k: nat, a: nat,
                    ghost sh: Shape, ghost hn0: nat, ghost pr: Progress, ghost pos: nat)
    returns (ok: bool, s': Loop, ghost pr': Progress)
    requires LoopInv(sh, hp[..], hn0, s, pr, k, a + 1, pos) && sh.g == g && sh.l == l && sh.alpha == alpha
    requires c.Length == BMAX + 1 && forall t :: 1 <= t <= g ==> c[t] == Cap(sh, t)
    requires Sorted(sh.lens, v[..]) && values == Off(sh.lens, g) + Count(sh.lens, g) && MANY <= hp.Length
    modifies hp
    ensures hp[..hn0] == old(hp[..hn0])
    ensures ok ==> LoopInv(sh, hp[..], hn0, s', pr', k, a, pos + Size(k)) && pr'.stack != [] && pr'.orig == pr.orig
    ensures !ok ==> hn0 <= s'.hn <= hp.Length && (Skips(sh) || hn0 + Space(sh) > MANY)
  {
    hide Inv, Ready, Between, ValidShape, Path, Sorted;
    BetweenIsReady(sh, hp[..], hn0, s.hn, pr, k, s.i, a + 1, pos);
    var hn, u, x, h, w, q, z, r;
    ok, hn, u, x, h, w, q, z, r, pr' :=
      OpenTables(hp, s.hn, c, g, l, k, a, s.i, s.u, s.x, s.h, s.w, s.q, s.z, s.r, sh, hn0, pr);
    s' := Loop(hn, s.i, s.p, h, w, q, z, u, x, r);
    if !ok {
      return;
    }
    s', pr' := FinishCode(hp, s', v, values, alpha, l, k, sh, hn0, pr', a, Cap(sh, k) - (a + 1), pos);
  }

  // ----- all codes ----------------------------------------------------------------------

  lemma {:induction false} OffZero(lens: seq<nat>, j: nat)
    requires forall k :: 1 <= k < j ==> Count(lens, k) == 0
    ensures Off(lens, j) == 0
  {
    if j > 1 {
      OffZero(lens, j - 1);
    }
  }

  /** Nothing is laid out yet: the first code is all zeros, of the least length in use. */
  lemma {:induction false} LoopStarts(sh: Shape, tbl: seq<Huft>, hn: nat, s: Loop, low: nat)
    requires ValidShape(sh) && hn <= |tbl| && hn <= MANY && 1 <= low <= sh.l
    requires forall k :: 1 <= k < low ==> Count(sh.lens, k) == 0
    requires s.hn == hn && s.i == 0 && s.p == 0 && s.h == -1 && s.w == 0 - sh.l
    requires |s.u| == BMAX && |s.x| == BMAX + 1
    ensures Cap(sh, low) >= Count(sh.lens, low)
    ensures LoopInv(sh, tbl, hn, s, Progress(map[], [], Zeros(low), true, tbl, []), low, Cap(sh, low), 0)
  {
    hide Inv, ValidLengths, Kraft, Pow2;
    var pr := Progress(map[], [], Zeros(low), true, tbl, []);
    NextCodeZero(sh.lens, low);
    OffZero(sh.lens, low);
    CapNonNegative(sh, low);
    LsbZeros(low);
    MsbZeros(low);
    InvStarts(sh, tbl, hn, pr);
  }

  lemma {:induction false} InvStarts(sh: Shape, tbl: seq<Huft>, hn: nat, pr: Progress)
    requires ValidShape(sh) && hn <= |tbl| && pr == Progress(map[], [], pr.code, true, tbl, [])
    requires 1 <= |pr.code| <= sh.g && pr.code == Zeros(|pr.code|)
    ensures Inv(sh, tbl, hn, hn, pr, 0)
  {
    MsbZeros(|pr.code|);
  }

  lemma {:induction false} LoopLengthens(sh: Shape, tbl: seq<Huft>, hn0: nat, s: Loop, pr: Progress, k: nat, pos: nat)
    requires LoopInv(sh, tbl, hn0, s, pr, k, 0, pos) && k < sh.g && pr.stack != []
    ensures Cap(sh, k + 1) >= 0
    ensures LoopInv(sh, tbl, hn0, s, pr.(code := pr.code + [false]), k + 1, Cap(sh, k + 1), pos)
  {
    hide Between, Regs, TableRegs, ValuesRead, Cap, Kraft, ValidLengths, Count;
    BetweenLengthens(sh, tbl, hn0, s.hn, pr, k, s.i, pos);
    RegsLengthen(sh, pr, s.u, s.x, s.h, s.w, s.q, s.z, k);
    ValuesLengthen(sh, k);
  }

  lemma {:induction false} BetweenLengthens(sh: Shape, tbl: seq<Huft>, hn0: nat, hn: nat, pr: Progress, k: nat, i: nat, pos: nat)
    requires Between(sh, tbl, hn0, hn, pr, k, i, 0, pos) && k < sh.g && pr.stack != []
    ensures ValidShape(sh) && 1 <= k && Cap(sh, k + 1) >= 0
    ensures Between(sh, tbl, hn0, hn, pr.(code := pr.code + [false]), k + 1, i, Cap(sh, k + 1), pos)
  {
    hide Inv, CapEnd, Cap, Thrifty, Size;
    InvFacts(sh, tbl, hn0, hn, pr, pos);
    LengthenKeepsInv(sh, tbl, hn0, hn, pr, pos);
    CapEndStep(sh, k);
    CapNonNegative(sh, k + 1);
    LsbConcat(pr.code, [false]);
    assert Lsb([false]) == 0;
  }

  lemma {:induction false} RegsLengthen(sh: Shape, pr: Progress, u: seq<nat>, x: seq<nat>, h: int, w: int, q: nat, z: nat, k: nat)
    requires Regs(sh, pr, u, x, h, w) && TableRegs(sh, pr, w, q, z, k)
    ensures Regs(sh, pr.(code := pr.code + [false]), u, x, h, w) && TableRegs(sh, pr.(code := pr.code + [false]), w, q, z, k + 1)
  {
  }

  lemma {:induction false} InvFacts(sh: Shape, tbl: seq<Huft>, hn0: nat, hn: nat, pr: Progress, pos: nat)
    requires Inv(sh, tbl, hn0, hn, pr, pos)
    ensures ValidShape(sh)
  {
  }

  /** All values of length `k` are read when its codes are laid out. */
  lemma {:induction false} ValuesLengthen(sh: Shape, k: nat)
    requires ValidShape(sh) && 1 <= k < sh.g
    ensures ValuesRead(sh, k, Cap(sh, k)) == ValuesRead(sh, k + 1, 0)
  {
    CapNonNegative(sh, k);
  }

  lemma {:induction false} LoopEnds(sh: Shape, tbl: seq<Huft>, hn0: nat, s: Loop, pr: Progress, pos: nat)
    requires LoopInv(sh, tbl, hn0, s, pr, sh.g, 0, pos) && pr.stack != []
    ensures pos == Whole && hn0 <= s.hn <= |tbl| && s.hn <= MANY && ValidShape(sh)
    ensures if Skips(sh) then ReadsOld(pr.orig, tbl[..s.hn], hn0, sh.l) else Placed(sh, pr.tabs) && Built(sh, tbl[..s.hn], pr.tabs, Whole)
    ensures [] in pr.tabs && pr.tabs[[]] == Tab(hn0, sh.l)
    ensures sh.l == sh.g ==> s.hn == hn0 + Pow2(sh.l)
    ensures Skips(sh) || s.hn - hn0 <= Space(sh)
  {
    hide Layout, Path, Built, ReadsOld, Skips, Lo, Chained, LinksOK, OpenedInTurn, Thrifty, Space;
    WithinSpace(sh, hn0, s.hn, pr.stack, pos);
    CapEndLast(sh);
    LayoutPlaced(sh, pr.tabs, hn0, s.hn);
    if pr.ok {
      InTurnNeverSkips(sh, tbl, pr.tabs);
      BuiltWithin(sh, tbl, pr.tabs, hn0, s.hn);
    } else {
      HoleConsulted(sh, tbl, pr.tabs, pr.chain, pr.orig, pr.code, hn0, s.hn);
    }
  }

  /** The entries all lie in the table space that was taken. */
  lemma {:induction false} BuiltWithin(sh: Shape, tbl: seq<Huft>, tabs: Tabs, hn0: nat, hn: nat)
    requires ValidShape(sh) && Layout(sh, tabs, hn0, hn) && hn <= |tbl| && Built(sh, tbl, tabs, Whole)
    ensures Built(sh, tbl[..hn], tabs, Whole)
  {
    hide EntryOK, Lo;
    forall p, r | p in tabs && |r| == tabs[p].width && Lo(p + r) < Whole
      ensures EntryOK(sh, tbl[..hn], tabs, p, r)
    {
      assert EntryOK(sh, tbl, tabs, p, r);
      CellInTable(tabs, p, r);
      EntryKept(sh, tbl, tbl[..hn], tabs, tabs, p, r);
    }
  }

  /** Generates the codes of every length in order, and for each makes the table entries. */
  method LayOutCodes(hp: array<Huft>, hn0: nat, c: array<nat>, v: array<nat>, values: nat, alpha: Alphabet, low: nat, g: nat, l: nat, ghost sh: Shape)
    returns (ok: bool, hn: nat, ghost tabs: Tabs)
    requires ValidShape(sh) && sh.g == g && sh.l == l && sh.alpha == alpha && hn0 <= MANY
    requires c.Length == BMAX + 1 && forall t :: 1 <= t <= g ==> c[t] == Cap(sh, t)
    requires Sorted(sh.lens, v[..]) && values == Off(sh.lens, g) + Count(sh.lens, g)
    requires 1 <= low <= l <= g <= BMAX && Count(sh.lens, low) > 0 && MANY <= hp.Length
    requires forall k :: 1 <= k < low ==> Count(sh.lens, k) == 0
    modifies hp
    ensures hp[..hn0] == old(hp[..hn0])
    ensures hn0 <= hn <= hp.Length && (ok ==> hn <= MANY)
    ensures ok ==> [] in tabs && tabs[[]] == Tab(hn0, l)
    ensures ok ==> if Skips(sh) then ReadsOld(old(hp[..]), hp[..hn], hn0, l) else Placed(sh, tabs) && Built(sh, hp[..hn], tabs, Whole)
    ensures if ok then l == g ==> hn == hn0 + Pow2(l) else Skips(sh) || hn0 + Space(sh) > MANY
    ensures ok ==> Skips(sh) || hn - hn0 <= Space(sh)
  {
    hide LoopInv, ValidShape, Sorted, Skips, Placed, Built, ReadsOld;
    ok := true;
    var k := low;
    var s := Loop(hn0, 0, 0, -1, 0 - l, 0, 0, seq(BMAX, _ => 0), seq(BMAX + 1, _ => 0), Huft(0, 0, 0));
    ghost var pr := Progress(map[], [], Zeros(low), true, hp[..], []);
    ghost var pos: nat := 0;
    LoopStarts(sh, hp[..], hn0, s, low);
    while k <= g
      invariant low <= k <= g + 1
      invariant k <= g ==> LoopInv(sh, hp[..], hn0, s, pr, k, c[k], pos)
      invariant k == g + 1 ==> LoopInv(sh, hp[..], hn0, s, pr, g, 0, pos)
      invariant (pr.stack != [] || k == low) && pr.orig == old(hp[..])
      invariant hp[..hn0] == old(hp[..hn0])
    {
      var a := c[k];
      while a > 0
        invariant LoopInv(sh, hp[..], hn0, s, pr, k, a, pos)
        invariant (pr.stack != [] || (k == low && a == c[low])) && pr.orig == old(hp[..])
        invariant hp[..hn0] == old(hp[..hn0])
      {
        a := a - 1;
        var s';
        ok, s', pr := LayOutCode(hp, s, c, v, values, alpha, g, l, k, a, sh, hn0, pr, pos);
        if !ok {
          return false, s'.hn, map[];
        }
        s := s';
        pos := pos + Size(k);
      }
      if k < g {
        LoopLengthens(sh, hp[..], hn0, s, pr, k, pos);
        pr := pr.(code := pr.code + [false]);
      }
      k := k + 1;
    }
    LoopEnds(sh, hp[..], hn0, s, pr, pos);
    hn, tabs := s.hn, pr.tabs;
  }

  // ----- huft_build ----------------------------------------------------------------------

  /** The bits per table: what the caller asks for, kept between the least and the greatest length in use. */
  function Clamp(m: nat, low: nat, g: nat): (l: nat) {
    var l := if m < low then low else m;
    if l > g then g else l
  }

  ghost predicate MinLen(lens: seq<nat>, low: nat) {
    && low > 0 && low in lens
    && forall i :: 0 <= i < |lens| ==> lens[i] == 0 || low <= lens[i]
  }

  ghost predicate Unused(lens: seq<nat>) {
    forall i :: 0 <= i < |lens| ==> lens[i] == 0
  }

  lemma {:induction false} UnusedCount(lens: seq<nat>)
    ensures Count(lens, 0) == |lens| <==> Unused(lens)
  {
    if lens != [] {
      UnusedCount(lens[..|lens| - 1]);
    }
  }

  lemma {:induction false} MinLenOf(lens: seq<nat>, low: nat)
    requires low > 0 && Count(lens, low) > 0
    requires forall k :: 1 <= k < low ==> Count(lens, k) == 0
    ensures MinLen(lens, low) && NextCode(lens, low) == 0
  {
    var s := NthSym(lens, low, 0);
    NextCodeZero(lens, low);
    forall i | 0 <= i < |lens|
      ensures lens[i] == 0 || low <= lens[i]
    {
      CountPositive(lens, i);
    }
  }

  /** What a call of `huft_build` on lengths that are not all zero returns, unless table space ran out. */
  ghost predicate Outcome(ret: Status, l: nat, m: nat, sh: Shape, low: nat) {
    && ValidShape(sh) && sh.l == l && MinLen(sh.lens, low) && NextCode(sh.lens, low) == 0
    && l == Clamp(m, low, sh.g) && ret == Verdict(sh)
  }

  /** Incomplete codes are not right, but for a single code of one bit. */
  ghost function Verdict(sh: Shape): (r: Status)
    requires ValidLengths(sh.lens)
  {
    if Kraft(sh.lens) < Whole && sh.g != 1 then ZBufError else ZOk
  }

  /**
    Makes the tables for the code given by `lens`, of at most `m` bits each where possible, in the
    table space from `hn` on.  `t` is the root table, `l` the bits it looks at, `hn'` the space used.
   */
  method Build(lens: seq<nat>, alpha: Alphabet, m: nat, hp: array<Huft>, hn: nat)
    returns (ret: Status, t: nat, l: nat, hn': nat, ghost sh: Shape, ghost low: nat)
    requires ValidLengths(lens) && ValidAlphabet(alpha, |lens|)
    requires lens != [] && hn <= MANY <= hp.Length
    modifies hp
    ensures hn <= hn' <= hp.Length && hp[..hn] == old(hp[..hn])
    ensures ret != ZMemError ==> hn' <= MANY
    ensures Unused(lens) ==> ret == ZOk && l == 0 && hn' == hn
    ensures !Unused(lens) ==> (ret == ZDataError <==> Kraft(lens) > Whole)
    ensures !Unused(lens) && ret != ZDataError && ret != ZMemError ==>
              && Outcome(ret, l, m, sh, low) && sh.lens == lens && sh.alpha == alpha
              && (if Skips(sh) then ReadsOld(old(hp[..]), hp[..hn'], t, l) else TablesFor(hp[..hn'], t, sh))
              && (l == sh.g ==> hn' == hn + Pow2(l)) && (Skips(sh) || hn' - hn <= Space(sh))
    ensures ret == ZMemError ==>
              && !Unused(lens) && sh.lens == lens && Outcome(Verdict(sh), l, m, sh, low)
              && (Skips(sh) || hn + Space(sh) > MANY)
  {
    hide TablesFor, Decodes, Skips, Placed, Built, Sorted, ReadsOld, Space;
    t, l, hn', sh, low := hn, 0, hn, Shape(lens, alpha, 0, 0), 0;
    var c := CountLengths(lens);
    UnusedCount(lens);
    if c[0] == |lens| {
      return ZOk, hn, 0, hn, sh, low;
    }
    var j, g := LengthRange(c, lens);
    MinLenOf(lens, j);
    l := Clamp(m, j, g);
    low := j;
    var over, y := Leftover(c, lens, j, g);
    if over {
      return ZDataError, hn, l, hn, sh, low;
    }
    sh := Shape(lens, alpha, g, l);
    MinBelowMax(lens, j, g);
    c[g] := c[g] + y;
    var v, n := SortSymbols(lens, c, g);
    var ok;
    ghost var tabs;
    ok, hn', tabs := LayOutCodes(hp, hn, c, v, n, alpha, j, g, l, sh);
    if !ok {
      return ZMemError, hn, l, hn', sh, low;
    }
    if !Skips(sh) {
      BuiltTables(sh, hp[..hn'], tabs);
    }
    ret := if y != 0 && g != 1 then ZBufError else ZOk;
  }

  lemma {:induction false} MinBelowMax(lens: seq<nat>, low: nat, g: nat)
    requires MinLen(lens, low) && MaxLen(lens, g)
    ensures low <= g
  {
  }
}
