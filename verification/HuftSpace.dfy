/**
  How much table space `huft_build` takes.

  Every table but the root is paid for by one length of code.  A table whose codes all have one length
  is paid for by these codes.  After any other table, at the same depth, come only codes at least as long
  as the table shows, so that each length pays for one such table, and the last length that a table of
  full width shows for one more.
 */
module HuftSpace {
  import opened Bits
  import opened Canonical
  import opened HuftTables
  import opened HuftLayout

  /** How many tables come before the one that takes the codes of length `k`. */
  function Level(l: nat, k: nat): (h: nat)
    requires l > 0 && k > 0
  {
    (k - 1) / l
  }

  /** How many bits of a code of length `k` the last of its tables looks at. */
  function Beyond(l: nat, k: nat): (n: nat)
    requires l > 0 && k > 0
    ensures 1 <= n <= l
  {
    (k - 1) % l + 1
  }

  lemma {:induction false} LevelIs(l: nat, k: nat, h: nat, d: nat)
    requires l > 0 && d == h * l && d < k <= d + l
    ensures Level(l, k) == h && Beyond(l, k) == k - d
  {
    DivModUnique(k - 1, l, h, k - 1 - d);
  }

  // ----- what one length of code pays for -----------------------------------------------

  /** How many codes of length `k` are laid out before `x` in code space. */
  ghost function Before(sh: Shape, k: nat, x: nat): (n: int)
    requires k <= BMAX
  {
    var start := NextCode(sh.lens, k) * Size(k);
    if x <= start then 0 else if CapEnd(sh, k) <= x then Cap(sh, k) else (x - start) / Size(k)
  }

  /** What the codes of length `k` pay for when their level is done up to `x`. */
  ghost function Share(sh: Shape, k: nat, x: nat): (n: int)
    requires 1 <= sh.l < k <= sh.g <= BMAX
  {
    var bits := Beyond(sh.l, k);
    Before(sh, k, x) + (if CapEnd(sh, k - 1) <= x then Pow2(bits) else 0) + (if bits == sh.l && k < sh.g && CapEnd(sh, k) <= x then Pow2(sh.l) else 0)
  }

  lemma {:induction false} QuotientOrder(a: int, b: int, u: int, n: int)
    requires u > 0 && 0 <= a <= b < n * u
    ensures 0 <= a / u <= b / u <= n
  {
    DivMod(a, u);
    DivMod(b, u);
    if a / u > b / u {
      MulOrder(b / u, a / u, u);
    }
    MulOrder(b / u, n, u);
  }

  lemma {:induction false} BeforeMonotone(sh: Shape, k: nat, x: nat, y: nat)
    requires ValidShape(sh) && 1 <= k <= sh.g && x <= y
    ensures 0 <= Before(sh, k, x) <= Before(sh, k, y) <= Cap(sh, k)
  {
    hide Kraft, ValidLengths, Size, NextCode, Cap;
    var u, start, cap := Size(k), NextCode(sh.lens, k) * Size(k), Cap(sh, k);
    CapNonNegative(sh, k);
    CapEndIs(sh, k);
    if start < x < CapEnd(sh, k) {
      QuotientOrder(x - start, x - start, u, cap);
    }
    if start < y < CapEnd(sh, k) {
      QuotientOrder(if x > start then x - start else 0, y - start, u, cap);
    }
  }

  lemma {:induction false} CapEndIs(sh: Shape, k: nat)
    requires k <= BMAX
    ensures CapEnd(sh, k) == NextCode(sh.lens, k) * Size(k) + Cap(sh, k) * Size(k)
  {
    MulDistributes(NextCode(sh.lens, k), Cap(sh, k), Size(k));
  }

  lemma {:induction false} ShareMonotone(sh: Shape, k: nat, x: nat, y: nat)
    requires ValidShape(sh) && sh.l < k <= sh.g && x <= y
    ensures 0 <= Share(sh, k, x) <= Share(sh, k, y)
  {
    hide Before, CapEnd, Cap, Kraft, ValidLengths, Pow2;
    BeforeMonotone(sh, k, x, y);
  }

  /** A stretch of `f` codes of one length. */
  lemma {:induction false} SharePaysCodes(sh: Shape, k: nat, x: nat, a: nat, f: nat, y: nat)
    requires ValidShape(sh) && sh.l < k <= sh.g && f <= a + 1 <= Cap(sh, k)
    requires x + (a + 1) * Size(k) == CapEnd(sh, k) && y == x + f * Size(k)
    ensures Share(sh, k, x) + f <= Share(sh, k, y)
  {
    hide CapEnd, Cap, Kraft, ValidLengths, Pow2, Size, NextCode;
    var u, m := Size(k), Cap(sh, k) - (a + 1);
    CapEndIs(sh, k);
    MulDistributes(Cap(sh, k), a + 1, u);
    BeforeAt(sh, k, x, m);
    MulDistributes(m, f, u);
    BeforeAt(sh, k, y, m + f);
  }

  lemma {:induction false} BeforeAt(sh: Shape, k: nat, x: nat, m: int)
    requires ValidShape(sh) && 1 <= k <= sh.g && 0 <= m <= Cap(sh, k) && x == NextCode(sh.lens, k) * Size(k) + m * Size(k)
    ensures Before(sh, k, x) == m
  {
    hide CapEnd, Cap, Kraft, ValidLengths, Size, NextCode;
    var u, start := Size(k), NextCode(sh.lens, k) * Size(k);
    CapEndIs(sh, k);
    MulOrder(m, 0, u);
    MulOrder(Cap(sh, k), m, u);
    DivModUnique(x - start, u, m, 0);
  }

  /** A stretch with codes of length less than `k` that ends after the last of them. */
  lemma {:induction false} SharePaysLonger(sh: Shape, k: nat, x: nat, y: nat)
    requires ValidShape(sh) && sh.l < k <= sh.g && x < CapEnd(sh, k - 1) <= y
    ensures Share(sh, k, x) + Pow2(Beyond(sh.l, k)) <= Share(sh, k, y)
  {
    hide Before, CapEnd, Cap, Kraft, ValidLengths, Pow2;
    BeforeMonotone(sh, k, x, y);
    CapEndMonotone(sh, k - 1, k);
  }

  /** A stretch that ends after the last of the codes that show all bits of a table. */
  lemma {:induction false} SharePaysFull(sh: Shape, k: nat, x: nat, y: nat)
    requires ValidShape(sh) && sh.l < k < sh.g && Beyond(sh.l, k) == sh.l && x < CapEnd(sh, k) <= y
    ensures Share(sh, k, x) + Pow2(sh.l) <= Share(sh, k, y)
  {
    hide Before, CapEnd, Cap, Kraft, ValidLengths, Pow2;
    BeforeMonotone(sh, k, x, y);
  }

  // ----- what all lengths pay for ---------------------------------------------------------

  /** How far the level of the codes of length `k` is done: to the end of its table, if there is one on the path. */
  ghost function Reach(sh: Shape, stack: seq<seq<bool>>, pos: nat, k: nat): (x: nat)
    requires sh.l > 0 && k > 0
  {
    var h := Level(sh.l, k);
    if h < |stack| && |stack[h]| <= BMAX then Lo(stack[h]) + Size(|stack[h]|) else pos
  }

  /** The root, and the shares of the lengths up to `n`. */
  ghost function Charged(sh: Shape, stack: seq<seq<bool>>, pos: nat, n: nat): (r: int)
    requires 1 <= sh.l <= sh.g <= BMAX && n <= sh.g
  {
    if n <= sh.l then Pow2(sh.l) else Charged(sh, stack, pos, n - 1) + Share(sh, n, Reach(sh, stack, pos, n))
  }

  /** The table space that suffices for a code. */
  ghost function Space(sh: Shape): (r: int)
    requires 1 <= sh.l <= sh.g <= BMAX
  {
    Charged(sh, [], Whole, sh.g)
  }

  /** If no level is skipped, the space taken is paid for. */
  ghost predicate Thrifty(sh: Shape, hn0: nat, hn: nat, stack: seq<seq<bool>>, pos: nat)
    requires 1 <= sh.l <= sh.g <= BMAX
  {
    Skips(sh) || hn - hn0 <= if stack == [] then 0 else Charged(sh, stack, pos, sh.g)
  }

  ghost predicate Further(sh: Shape, stack: seq<seq<bool>>, pos: nat, stack': seq<seq<bool>>, pos': nat)
    requires sh.l > 0
  {
    forall k :: sh.l < k <= sh.g ==> Reach(sh, stack, pos, k) <= Reach(sh, stack', pos', k)
  }

  lemma {:induction false} ChargedGrows(sh: Shape, stack: seq<seq<bool>>, pos: nat, stack': seq<seq<bool>>, pos': nat, n: nat, at: nat, gain: nat)
    requires ValidShape(sh) && n <= sh.g && Further(sh, stack, pos, stack', pos')
    requires gain > 0 ==> sh.l < at <= sh.g && Share(sh, at, Reach(sh, stack, pos, at)) + gain <= Share(sh, at, Reach(sh, stack', pos', at))
    ensures Charged(sh, stack, pos, n) + (if at <= n then gain else 0) <= Charged(sh, stack', pos', n)
    ensures Charged(sh, stack, pos, n) <= Charged(sh, stack', pos', n)
  {
    hide Share, Reach, ValidShape, Pow2;
    if n > sh.l {
      ChargedGrows(sh, stack, pos, stack', pos', n - 1, at, gain);
      ShapeFacts(sh);
      ShareMonotone(sh, n, Reach(sh, stack, pos, n), Reach(sh, stack', pos', n));
    }
  }

  lemma {:induction false} ShapeFacts(sh: Shape)
    requires ValidShape(sh)
    ensures 1 <= sh.l <= sh.g <= BMAX
  {
  }

  // ----- opening a table ------------------------------------------------------------------

  /** The code space below `p` that codes of length at most `n` do not reach. */
  ghost function Left(sh: Shape, p: seq<bool>, n: nat): (r: int)
    requires |p| <= BMAX && n <= BMAX
  {
    Lo(p) + Size(|p|) - CapEnd(sh, n)
  }

  /**
    How a table of `width` bits for `p` comes to be paid for, its first code having length `k` and `a` more
    of that length following: by codes of length `k` only, by a greater length, or by the last length it shows.
   */
  ghost predicate Paid(sh: Shape, p: seq<bool>, k: nat, a: nat, width: nat) {
    && |p| < k <= |p| + width <= sh.g <= BMAX
    && if k == |p| + width then Pow2(width) <= a + 1 || (sh.l <= width && k < sh.g && Left(sh, p, k) > 0)
       else Left(sh, p, |p| + width - 1) > 0
  }

  lemma {:induction false} StackDepth(sh: Shape, tabs: Tabs, stack: seq<seq<bool>>, code: seq<bool>, h: nat)
    requires sh.l > 0 && Path(sh, tabs, stack, code) && h <= |stack|
    ensures h < |stack| ==> |stack[h]| == h * sh.l
    ensures h == |stack| ==> Depth(sh, stack) == h * sh.l
  {
    hide OnCode, AllOnStack;
    if h > 0 {
      StackDepth(sh, tabs, stack, code, h - 1);
      assert h * sh.l == (h - 1) * sh.l + sh.l;
      assert h < |stack| ==> |stack[h - 1 + 1]| == |stack[h - 1]| + sh.l;
    }
  }

  lemma {:induction false} OpenFurther(sh: Shape, stack: seq<seq<bool>>, p: seq<bool>)
    requires sh.l > 0 && |p| <= BMAX
    ensures Further(sh, stack, Lo(p), stack + [p], Lo(p))
    ensures forall k :: sh.l < k <= sh.g && Level(sh.l, k) == |stack| ==>
              Reach(sh, stack, Lo(p), k) == Lo(p) && Reach(sh, stack + [p], Lo(p), k) == Lo(p) + Size(|p|)
  {
    hide Level, Lo, Size;
  }

  /** The length that pays for a table, and what it gains. */
  lemma {:induction false} Payer(sh: Shape, p: seq<bool>, k: nat, a: nat, width: nat, h: nat) returns (at: nat)
    requires ValidShape(sh) && Paid(sh, p, k, a, width) && |p| == h * sh.l && h > 0 && k <= |p| + sh.l
    requires width <= sh.l && a + 1 <= Cap(sh, k) && Lo(p) + (a + 1) * Size(k) == CapEnd(sh, k)
    ensures sh.l < at <= sh.g && Level(sh.l, at) == h
    ensures Share(sh, at, Lo(p)) + Pow2(width) <= Share(sh, at, Lo(p) + Size(|p|))
  {
    hide Share, Cap, CapEnd, Lo, Size, Kraft, ValidLengths, Level, Beyond, Pow2;
    at := |p| + width;
    MulAtLeast(h, sh.l);
    LevelIs(sh.l, at, h, |p|);
    var x, y := Lo(p), Lo(p) + Size(|p|);
    if k == at && Pow2(width) <= a + 1 {
      PatternsOpen(k, |p|);
      SharePaysCodes(sh, k, x, a, Pow2(width), y);
    } else {
      MulOrder(0, a + 1, Size(k));
      PayLater(sh, k, at, x, y, width);
    }
  }

  lemma {:induction false} PayLater(sh: Shape, k: nat, at: nat, x: nat, y: nat, width: nat)
    requires ValidShape(sh) && 1 <= k <= at && sh.l < at <= sh.g && x < CapEnd(sh, k) && Beyond(sh.l, at) == width
    requires (k < at && CapEnd(sh, at - 1) < y) || (k == at < sh.g && width == sh.l && CapEnd(sh, k) < y)
    ensures Share(sh, at, x) + Pow2(width) <= Share(sh, at, y)
  {
    hide Share, Cap, CapEnd, Kraft, ValidLengths, Beyond, Pow2;
    if k < at {
      CapEndMonotone(sh, k, at - 1);
      SharePaysLonger(sh, at, x, y);
    } else {
      SharePaysFull(sh, k, x, y);
    }
  }

  lemma {:induction false} PatternsOpen(k: nat, w: nat)
    requires w <= k <= BMAX
    ensures Pow2(k - w) * Size(k) == Size(w)
  {
    Pow2Add(k - w, BMAX - k);
  }

  lemma {:induction false} OpenKeepsThrifty(sh: Shape, tabs: Tabs, stack: seq<seq<bool>>, code: seq<bool>, a: nat, hn0: nat, hn: nat, width: nat)
    requires ValidShape(sh) && Path(sh, tabs, stack, code) && Depth(sh, stack) < |code| <= sh.g && Thrifty(sh, hn0, hn, stack, Lo(code))
    requires IsCode(sh, code) && a + 1 <= Cap(sh, |code|) && Lo(code) + (a + 1) * Size(|code|) == CapEnd(sh, |code|)
    requires Paid(sh, code[..Depth(sh, stack)], |code|, a, width)
    requires (stack == [] ==> width == sh.l && hn == hn0) && (|code| <= Depth(sh, stack) + sh.l ==> width <= sh.l)
    ensures Thrifty(sh, hn0, hn + Pow2(width), stack + [code[..Depth(sh, stack)]], Lo(code))
  {
    hide Lo, CapEnd, Size, Path, Charged, Paid, IsCode, Cap;
    var p := code[..Depth(sh, stack)];
    NextTableIsNew(sh, tabs, stack, code);
    if stack == [] {
      AtLeastRoot(sh, stack + [p], Lo(code), sh.g);
    } else if !Skips(sh) {
      if Depth(sh, stack) + sh.l < |code| {
        SkipSeen(sh, tabs, stack, code);
      }
      StackDepth(sh, tabs, stack, code, |stack|);
      OpenFurther(sh, stack, p);
      var at := Payer(sh, p, |code|, a, width, |stack|);
      ChargedGrows(sh, stack, Lo(p), stack + [p], Lo(p), sh.g, at, Pow2(width));
    }
  }

  lemma {:induction false} AtLeastRoot(sh: Shape, stack: seq<seq<bool>>, pos: nat, n: nat)
    requires ValidShape(sh) && n <= sh.g
    ensures Pow2(sh.l) <= Charged(sh, stack, pos, n)
  {
    hide Share, Reach, Kraft, ValidLengths, Pow2;
    if n > sh.l {
      AtLeastRoot(sh, stack, pos, n - 1);
      ShareMonotone(sh, n, Reach(sh, stack, pos, n), Reach(sh, stack, pos, n));
    }
  }

  /** At any time, no more is charged than is available. */
  lemma {:induction false} WithinSpace(sh: Shape, hn0: nat, hn: nat, stack: seq<seq<bool>>, pos: nat)
    requires ValidShape(sh) && Thrifty(sh, hn0, hn, stack, pos) && pos <= Whole
    ensures Skips(sh) || hn - hn0 <= Space(sh)
  {
    hide Share, Lo, Size, Pow2, Kraft, ValidLengths, Charged, Level;
    forall k | sh.l < k <= sh.g
      ensures Reach(sh, stack, pos, k) <= Reach(sh, [], Whole, k)
    {
      var h := Level(sh.l, k);
      if h < |stack| && |stack[h]| <= BMAX {
        PrefixEnds(stack[h]);
      }
    }
    AtLeastRoot(sh, [], Whole, sh.g);
    ChargedGrows(sh, stack, pos, [], Whole, sh.g, 0, 0);
  }

  // ----- stepping to the next code ----------------------------------------------------------

  /** A table that the next code is not in is done. */
  lemma {:induction false} PoppedIsDone(p: seq<bool>, code: seq<bool>)
    requires p <= code && |code| <= BMAX && !(p <= Succ(code))
    ensures Lo(p) + Size(|p|) <= Lo(code) + Size(|code|)
  {
    hide Lo, Size;
    LoPrefix(p, code);
    PrefixEnds(p);
    PrefixEnds(code);
    if Lo(code) + Size(|code|) < Whole {
      LoSucc(code);
      if Lo(code) + Size(|code|) < Lo(p) + Size(|p|) {
        LoExtends(p, Succ(code));
      }
    }
  }

  lemma {:induction false} StepKeepsThrifty(sh: Shape, tabs: Tabs, stack: seq<seq<bool>>, code: seq<bool>, n: nat, hn0: nat, hn: nat, pos: nat)
    requires ValidShape(sh) && Path(sh, tabs, stack, code) && |code| <= BMAX && Thrifty(sh, hn0, hn, stack, Lo(code))
    requires Popped(stack, Succ(code), n) && pos == Lo(code) + Size(|code|)
    ensures Thrifty(sh, hn0, hn, stack[..n], pos)
  {
    hide Lo, Size, Succ, Level, Charged, Kraft, ValidLengths, Skips, Steps, AllOnStack, Aligned;
    forall k | sh.l < k <= sh.g
      ensures Reach(sh, stack, Lo(code), k) <= Reach(sh, stack[..n], pos, k)
    {
      var h := Level(sh.l, k);
      if n <= h < |stack| {
        StackGrows(sh, tabs, stack, code, n, h);
        LoPrefix(stack[n], stack[h]);
        PoppedIsDone(stack[n], code);
      }
    }
    ChargedGrows(sh, stack, Lo(code), stack[..n], pos, sh.g, 0, 0);
  }

  // ----- complete codes -----------------------------------------------------------------------

  /** What the lengths up to `n` pay for beyond the number of their codes. */
  function Slack(l: nat, n: nat): (r: nat)
    requires l > 0
  {
    if n <= l then 0 else Slack(l, n - 1) + Pow2(Beyond(l, n)) + (if Beyond(l, n) == l then Pow2(l) else 0)
  }

  lemma {:induction false} CompleteCharged(sh: Shape, n: nat)
    requires ValidShape(sh) && Kraft(sh.lens) == Whole && sh.l <= n <= sh.g
    ensures Charged(sh, [], Whole, n) + CountFrom(sh.lens, n + 1) <= Pow2(sh.l) + Slack(sh.l, n) + CountFrom(sh.lens, sh.l + 1)
  {
    hide Before, Beyond, CapEnd, Kraft, NextCode, Count, CountFrom, Pow2, ValidLengths, Reach;
    if n > sh.l {
      CompleteCharged(sh, n - 1);
      BeforeMonotone(sh, n, Reach(sh, [], Whole, n), Reach(sh, [], Whole, n));
      CountFromStep(sh.lens, n);
      KraftAtMax(sh.lens, sh.g);
    }
  }

  /** A complete code takes one entry for each of its longer codes, besides the root and what depends on the lengths alone. */
  lemma {:induction false} CompleteSpace(sh: Shape)
    requires ValidShape(sh) && Kraft(sh.lens) == Whole
    ensures Space(sh) <= Pow2(sh.l) + Slack(sh.l, sh.g) + |sh.lens|
  {
    CompleteCharged(sh, sh.g);
  }

  lemma {:induction false} SingleSpace(sh: Shape)
    requires ValidShape(sh) && sh.l == sh.g
    ensures Space(sh) == Pow2(sh.l)
  {
  }

  lemma {:induction false} SlackMonotone(l: nat, m: nat, n: nat)
    requires l > 0 && m <= n
    ensures Slack(l, m) <= Slack(l, n)
    decreases n
  {
    if m < n {
      SlackMonotone(l, m, n - 1);
    }
  }

  lemma {:induction false} SmallSlack()
    ensures Slack(9, BMAX) == 126 && Slack(6, BMAX) == 204
  {
    assert Pow2(3) == 8 && Pow2(6) == 64;
    assert Slack(9, 12) == 14 && Slack(9, 15) == 126;
    assert Slack(6, 9) == 14 && Slack(6, 11) == 62 && Slack(6, 12) == 190;
  }
}
