/**
  Writing DEFLATE: every stream that section 3.2 of RFC 1951 allows for given data, bit by bit.

  A stream is a sequence of blocks, and a block is stored, or a sequence of literals and matches in the
  fixed codes or in codes of its own.  What is read back is what was written.
 */
module Encoder {
  import opened Bits
  import opened Canonical
  import opened Deflate
  import opened Alphabets

  // ----- bits in place -------------------------------------------------------------------------

  /** The `n` bits of `v`, least significant first. */
  function ToLsb(v: nat, n: nat): (s: seq<bool>)
    ensures |s| == n
  {
    if n == 0 then [] else [v % 2 == 1] + ToLsb(v / 2, n - 1)
  }

  lemma {:induction false} LsbOfTo(v: nat, n: nat)
    requires v < Pow2(n)
    ensures Lsb(ToLsb(v, n)) == v
  {
    if n != 0 {
      LsbOfTo(v / 2, n - 1);
    }
  }

  /** The input holds the bits `e` at `pos`. */
  ghost predicate At(input: seq<byte>, pos: nat, e: seq<bool>) {
    pos + |e| <= 8 * |input| && Peek(input, pos, |e|) == e
  }

  lemma {:induction false} AtSplit(input: seq<byte>, pos: nat, a: seq<bool>, b: seq<bool>)
    requires At(input, pos, a + b)
    ensures At(input, pos, a) && At(input, pos + |a|, b)
  {
    hide StreamBit;
    var e := a + b;
    assert forall i :: 0 <= i < |a| ==> a[i] == e[i];
    assert forall i :: 0 <= i < |b| ==> b[i] == e[|a| + i];
    assert Peek(input, pos, |a|) == a;
    assert Peek(input, pos + |a|, |b|) == b;
  }

  lemma {:induction false} FieldAt(input: seq<byte>, pos: nat, v: nat, n: nat)
    requires v < Pow2(n) && At(input, pos, ToLsb(v, n))
    ensures Field(input, pos, n) == v && pos + n <= 8 * |input|
  {
    LsbOfTo(v, n);
  }

  // ----- symbols -----------------------------------------------------------------------------

  ghost predicate HasCode(lens: seq<nat>, s: nat) {
    s < |lens| && lens[s] > 0
  }

  ghost predicate IsCode(lens: seq<nat>) {
    ValidLengths(lens) && Kraft(lens) <= Whole
  }

  lemma {:induction false} SymbolAt(input: seq<byte>, pos: nat, lens: seq<nat>, s: nat)
    requires IsCode(lens) && HasCode(lens, s) && At(input, pos, Code(lens, s))
    ensures ReadSymbol(input, pos, lens) == Read(s, lens[s]) && pos + lens[s] <= 8 * |input|
  {
    hide Code, Kraft, StreamBit;
    var bits := Peek(input, pos, BMAX);
    var n := lens[s];
    assert bits[..n] == Peek(input, pos, n);
    assert StartsWith(lens, s, bits);
    if Symbol(lens, bits).Sym? {
      CodesArePrefixFree(lens, bits, s, Symbol(lens, bits).value);
    }
  }

  // ----- literals and matches ------------------------------------------------------------------

  /** A literal, or `len` bytes from `dist` bytes before, the length said by `symbol`. */
  datatype Token = Literal(value: byte) | Match(symbol: nat, len: nat, dist: nat)

  function DistSymbol(dist: nat): (s: nat)
    requires 1 <= dist
    ensures s < 30
  {
    SymbolFor(DIST_BASE, dist, 30)
  }

  /** The codes can say the token behind `size` bytes. */
  ghost predicate Sayable(t: Token, size: nat, ll: seq<nat>, dl: seq<nat>) {
    match t
    case Literal(v) => HasCode(ll, v)
    case Match(s, len, dist) =>
      && 257 <= s < NO_LENGTH && HasCode(ll, s) && Covers(LENGTH_BASE, LENGTH_EXTRA, s - 257, len)
      && 1 <= dist <= 32768 && dist <= size && HasCode(dl, DistSymbol(dist))
  }

  /** What is there once the token was read. */
  function Said(hist: seq<byte>, t: Token): (r: seq<byte>) {
    match t
    case Literal(v) => hist + [v]
    case Match(_, len, dist) => if 1 <= dist <= |hist| then Copy(hist, dist, len) else hist
  }

  function SaidAll(hist: seq<byte>, ts: seq<Token>): (r: seq<byte>)
    decreases |ts|
  {
    if ts == [] then hist else SaidAll(Said(hist, ts[0]), ts[1..])
  }

  ghost predicate AllSayable(ts: seq<Token>, hist: seq<byte>, ll: seq<nat>, dl: seq<nat>)
    decreases |ts|
  {
    ts == [] || (Sayable(ts[0], |hist|, ll, dl) && AllSayable(ts[1..], Said(hist, ts[0]), ll, dl))
  }

  /** A length: its symbol and, least significant first, the extra bits. */
  ghost function LengthBits(s: nat, len: nat, ll: seq<nat>): (e: seq<bool>)
    requires 257 <= s < NO_LENGTH && HasCode(ll, s) && Covers(LENGTH_BASE, LENGTH_EXTRA, s - 257, len)
  {
    Code(ll, s) + ToLsb(len - LENGTH_BASE[s - 257], LENGTH_EXTRA[s - 257])
  }

  ghost function DistBits(dist: nat, dl: seq<nat>): (e: seq<bool>)
    requires 1 <= dist && HasCode(dl, DistSymbol(dist))
  {
    var s := DistSymbol(dist);
    Code(dl, s) + ToLsb(dist - DIST_BASE[s], DIST_EXTRA[s])
  }

  ghost function TokenBits(t: Token, size: nat, ll: seq<nat>, dl: seq<nat>): (e: seq<bool>)
    requires Sayable(t, size, ll, dl)
  {
    match t
    case Literal(v) => Code(ll, v)
    case Match(s, len, dist) => LengthBits(s, len, ll) + DistBits(dist, dl)
  }

  ghost function CodesBits(ts: seq<Token>, hist: seq<byte>, ll: seq<nat>, dl: seq<nat>): (e: seq<bool>)
    requires AllSayable(ts, hist, ll, dl) && HasCode(ll, END_OF_BLOCK)
    decreases |ts|
  {
    if ts == [] then Code(ll, END_OF_BLOCK)
    else TokenBits(ts[0], |hist|, ll, dl) + CodesBits(ts[1..], Said(hist, ts[0]), ll, dl)
  }

  lemma {:induction false} DistCovers(dist: nat)
    requires 1 <= dist <= 32768
    ensures |DIST_BASE| == |DIST_EXTRA| == 30 && Covers(DIST_BASE, DIST_EXTRA, DistSymbol(dist), dist)
  {
    hide SymbolFor;
    DistanceCodes();
    TilesOnce(DIST_BASE, DIST_EXTRA, 30, 1, 32769, dist);
  }

  lemma {:induction false} DistanceAt(input: seq<byte>, pos: nat, hist: seq<byte>, ll: seq<nat>, dl: seq<nat>, len: nat, dist: nat)
    requires IsCode(dl) && 1 <= dist <= 32768 && dist <= |hist| && HasCode(dl, DistSymbol(dist)) && At(input, pos, DistBits(dist, dl))
    ensures Distance(input, pos, hist, ll, dl, len) == Codes(input, pos + |DistBits(dist, dl)|, Copy(hist, dist, len), ll, dl)
  {
    hide Field, At, Codes, ReadSymbol, Code, Copy, Pow2, IsCode, DistSymbol;
    var s := DistSymbol(dist);
    DistCovers(dist);
    AtSplit(input, pos, Code(dl, s), ToLsb(dist - DIST_BASE[s], DIST_EXTRA[s]));
    SymbolAt(input, pos, dl, s);
    FieldAt(input, pos + dl[s], dist - DIST_BASE[s], DIST_EXTRA[s]);
  }

  lemma {:induction false} LengthAt(input: seq<byte>, pos: nat, hist: seq<byte>, ll: seq<nat>, dl: seq<nat>, s: nat, len: nat)
    requires IsCode(ll) && 257 <= s < NO_LENGTH && HasCode(ll, s) && Covers(LENGTH_BASE, LENGTH_EXTRA, s - 257, len)
    requires At(input, pos, LengthBits(s, len, ll))
    ensures Codes(input, pos, hist, ll, dl) == Distance(input, pos + |LengthBits(s, len, ll)|, hist, ll, dl, len)
  {
    hide Field, At, Distance, ReadSymbol, Code, Pow2, IsCode;
    AtSplit(input, pos, Code(ll, s), ToLsb(len - LENGTH_BASE[s - 257], LENGTH_EXTRA[s - 257]));
    SymbolAt(input, pos, ll, s);
    FieldAt(input, pos + ll[s], len - LENGTH_BASE[s - 257], LENGTH_EXTRA[s - 257]);
  }

  lemma {:induction false} TokenAt(input: seq<byte>, pos: nat, hist: seq<byte>, ll: seq<nat>, dl: seq<nat>, t: Token)
    requires IsCode(ll) && IsCode(dl) && Sayable(t, |hist|, ll, dl) && At(input, pos, TokenBits(t, |hist|, ll, dl))
    ensures Codes(input, pos, hist, ll, dl) == Codes(input, pos + |TokenBits(t, |hist|, ll, dl)|, Said(hist, t), ll, dl)
  {
    hide Field, At, ReadSymbol, Code, Pow2, IsCode, Distance, Copy, Covers, DistBits, LengthBits, LengthExtra;
    match t
    case Literal(v) =>
      SymbolAt(input, pos, ll, v);
    case Match(s, len, dist) =>
      hide Codes;
      AtSplit(input, pos, LengthBits(s, len, ll), DistBits(dist, dl));
      LengthAt(input, pos, hist, ll, dl, s, len);
      DistanceAt(input, pos + |LengthBits(s, len, ll)|, hist, ll, dl, len, dist);
  }

  /** Section 3.2.3: what a block of literals and matches is read back as. */
  lemma {:induction false} CodesRoundTrip(input: seq<byte>, pos: nat, hist: seq<byte>, ll: seq<nat>, dl: seq<nat>, ts: seq<Token>)
    requires IsCode(ll) && IsCode(dl) && HasCode(ll, END_OF_BLOCK)
    requires AllSayable(ts, hist, ll, dl) && At(input, pos, CodesBits(ts, hist, ll, dl))
    ensures Codes(input, pos, hist, ll, dl) == Done(pos + |CodesBits(ts, hist, ll, dl)|, SaidAll(hist, ts))
    decreases |ts|
  {
    hide At, ReadSymbol, Code, IsCode, TokenBits, Said, Sayable;
    if ts == [] {
      SymbolAt(input, pos, ll, END_OF_BLOCK);
    } else {
      hide Codes;
      var first := TokenBits(ts[0], |hist|, ll, dl);
      AtSplit(input, pos, first, CodesBits(ts[1..], Said(hist, ts[0]), ll, dl));
      TokenAt(input, pos, hist, ll, dl, ts[0]);
      CodesRoundTrip(input, pos + |first|, Said(hist, ts[0]), ll, dl, ts[1..]);
    }
  }

  // ----- code lengths ----------------------------------------------------------------------------

  /** A code length, the length before `n` times more, or `n` zeros. */
  datatype Item = Plain(c: nat) | Again(n: nat) | None(n: nat)

  function ItemSymbol(i: Item): (s: nat) {
    match i
    case Plain(c) => c
    case Again(_) => 16
    case None(n) => if n <= 10 then 17 else 18
  }

  ghost predicate GoodItem(i: Item, lens: seq<nat>, cl: seq<nat>) {
    && HasCode(cl, ItemSymbol(i))
    && match i
       case Plain(c) => c <= BMAX
       case Again(n) => 3 <= n <= 6 && lens != []
       case None(n) => 3 <= n <= 138
  }

  function ItemExtra(i: Item): (e: seq<bool>) {
    match i
    case Plain(_) => []
    case Again(n) => ToLsb(if n >= 3 then n - 3 else 0, 2)
    case None(n) => if n <= 10 then ToLsb(if n >= 3 then n - 3 else 0, 3) else ToLsb(n - 11, 7)
  }

  /** The lengths with those of one more item. */
  function Given(lens: seq<nat>, i: Item): (r: seq<nat>) {
    match i
    case Plain(c) => lens + [c]
    case Again(n) => lens + Repeat(if lens == [] then 0 else lens[|lens| - 1], n)
    case None(n) => lens + Repeat(0, n)
  }

  function GivenAll(lens: seq<nat>, items: seq<Item>): (r: seq<nat>)
    decreases |items|
  {
    if items == [] then lens else GivenAll(Given(lens, items[0]), items[1..])
  }

  ghost predicate GoodItems(items: seq<Item>, lens: seq<nat>, cl: seq<nat>)
    decreases |items|
  {
    items == [] || (GoodItem(items[0], lens, cl) && GoodItems(items[1..], Given(lens, items[0]), cl))
  }

  ghost function ItemBits(i: Item, cl: seq<nat>): (e: seq<bool>)
    requires HasCode(cl, ItemSymbol(i))
  {
    Code(cl, ItemSymbol(i)) + ItemExtra(i)
  }

  ghost function ItemsBits(items: seq<Item>, lens: seq<nat>, cl: seq<nat>): (e: seq<bool>)
    requires GoodItems(items, lens, cl)
    decreases |items|
  {
    if items == [] then [] else ItemBits(items[0], cl) + ItemsBits(items[1..], Given(lens, items[0]), cl)
  }

  /** Items only add lengths. */
  lemma {:induction false} GivenMore(lens: seq<nat>, items: seq<Item>, cl: seq<nat>)
    requires GoodItems(items, lens, cl)
    ensures |lens| <= |GivenAll(lens, items)| && (items != [] ==> |Given(lens, items[0])| <= |GivenAll(lens, items)| && |lens| < |GivenAll(lens, items)|)
    decreases |items|
  {
    hide HasCode;
    if items != [] {
      GivenMore(Given(lens, items[0]), items[1..], cl);
    }
  }

  lemma {:induction false} AcceptsIsCode(lens: seq<nat>)
    requires Accepts(lens)
    ensures IsCode(lens)
  {
  }

  lemma {:induction false} LengthItemAt(input: seq<byte>, pos: nat, cl: seq<nat>, s: nat)
    requires Accepts(cl) && HasCode(cl, s) && At(input, pos, Code(cl, s))
    ensures ReadLength(input, pos, cl) == Read(s, cl[s]) && cl[s] > 0 && pos + cl[s] <= 8 * |input|
  {
    hide Code, Accepts, At, IsCode;
    AcceptsIsCode(cl);
    SymbolAt(input, pos, cl, s);
  }

  /** One turn of reading lengths, for a repeat. */
  lemma {:induction false} RepeatAt(input: seq<byte>, pos: nat, hist: seq<byte>, nl: nat, nd: nat, cl: seq<nat>, lens: seq<nat>, s: nat, n: nat)
    requires Accepts(cl) && 16 <= s <= 18 && HasCode(cl, s) && |lens| < nl + nd && |lens| + n <= nl + nd && (s == 16 ==> lens != [])
    requires ReadLength(input, pos, cl) == Read(s, cl[s])
    requires var extra, least := if s == 18 then 7 else if s == 17 then 3 else 2, if s == 18 then 11 else 3;
             n >= least && pos + cl[s] + extra <= 8 * |input| && Field(input, pos + cl[s], extra) == n - least
    ensures Lengths(input, pos, hist, nl, nd, cl, lens) ==
            Lengths(input, pos + cl[s] + (if s == 18 then 7 else if s == 17 then 3 else 2), hist, nl, nd, cl,
                    lens + Repeat(if s == 16 then lens[|lens| - 1] else 0, n))
  {
    hide Code, Accepts, Field, ReadLength, Codes, AcceptsPair, Repeat;
  }

  lemma {:induction false} PlainAt(input: seq<byte>, pos: nat, hist: seq<byte>, nl: nat, nd: nat, cl: seq<nat>, lens: seq<nat>, c: nat)
    requires Accepts(cl) && c < 16 && HasCode(cl, c) && |lens| < nl + nd && ReadLength(input, pos, cl) == Read(c, cl[c])
    ensures Lengths(input, pos, hist, nl, nd, cl, lens) == Lengths(input, pos + cl[c], hist, nl, nd, cl, lens + [c])
  {
    hide Code, Accepts, Field, ReadLength, Codes, AcceptsPair, Repeat;
  }

  /** The number of times, behind the symbol. */
  lemma {:induction false} ItemExtraAt(input: seq<byte>, pos: nat, i: Item)
    requires (i.Again? && 3 <= i.n <= 6) || (i.None? && 3 <= i.n <= 138)
    requires At(input, pos, ItemExtra(i))
    ensures var s := ItemSymbol(i);
            var extra, least := if s == 18 then 7 else if s == 17 then 3 else 2, if s == 18 then 11 else 3;
            |ItemExtra(i)| == extra && i.n >= least && pos + extra <= 8 * |input| && Field(input, pos, extra) == i.n - least
  {
    SmallPowers();
    hide At, Field, Pow2, ToLsb;
    if i.Again? {
      FieldAt(input, pos, i.n - 3, 2);
    } else if i.n <= 10 {
      FieldAt(input, pos, i.n - 3, 3);
    } else {
      FieldAt(input, pos, i.n - 11, 7);
    }
  }

  lemma {:induction false} ItemAt(input: seq<byte>, pos: nat, hist: seq<byte>, nl: nat, nd: nat, cl: seq<nat>, lens: seq<nat>, i: Item)
    requires Accepts(cl) && GoodItem(i, lens, cl) && |lens| < nl + nd && |Given(lens, i)| <= nl + nd
    requires At(input, pos, ItemBits(i, cl))
    ensures Lengths(input, pos, hist, nl, nd, cl, lens) == Lengths(input, pos + |ItemBits(i, cl)|, hist, nl, nd, cl, Given(lens, i))
  {
    var s := ItemSymbol(i);
    hide Code, Accepts, At, Field, ReadLength, Lengths, ToLsb, Repeat;
    AtSplit(input, pos, Code(cl, s), ItemExtra(i));
    LengthItemAt(input, pos, cl, s);
    if i.Plain? {
      PlainAt(input, pos, hist, nl, nd, cl, lens, s);
    } else {
      ItemExtraAt(input, pos + cl[s], i);
      hide ItemExtra;
      RepeatAt(input, pos, hist, nl, nd, cl, lens, s, i.n);
    }
  }

  /** Section 3.2.7: the lengths of both codes are read back, repeats across the boundary included. */
  lemma {:induction false} LengthsRoundTrip(input: seq<byte>, pos: nat, hist: seq<byte>, nl: nat, nd: nat, cl: seq<nat>, lens: seq<nat>, items: seq<Item>)
    requires Accepts(cl) && GoodItems(items, lens, cl) && |GivenAll(lens, items)| == nl + nd
    requires AcceptsPair(GivenAll(lens, items)[..nl], GivenAll(lens, items)[nl..])
    requires At(input, pos, ItemsBits(items, lens, cl))
    ensures Lengths(input, pos, hist, nl, nd, cl, lens)
         == Codes(input, pos + |ItemsBits(items, lens, cl)|, hist, GivenAll(lens, items)[..nl], GivenAll(lens, items)[nl..])
    decreases |items|
  {
    hide Accepts, At, ReadLength, Codes, AcceptsPair, ItemBits, Given;
    if items != [] {
      hide Lengths;
      var first, more := ItemBits(items[0], cl), Given(lens, items[0]);
      GivenMore(lens, items, cl);
      AtSplit(input, pos, first, ItemsBits(items[1..], more, cl));
      ItemAt(input, pos, hist, nl, nd, cl, lens, items[0]);
      LengthsRoundTrip(input, pos + |first|, hist, nl, nd, cl, more, items[1..]);
    }
  }

  // ----- the code-length code ----------------------------------------------------------------------

  /** Where the length of symbol `s` is sent. */
  function Place(s: nat): (j: nat)
    requires s < 19
    ensures j < 19
  {
    if s >= 16 then s - 16 else if s == 0 then 3 else if s == 15 then 18 else if s >= 8 then 4 + 2 * (s - 8) else 5 + 2 * (7 - s)
  }

  /** The symbol whose length is sent in place `j`. */
  function InPlace(j: nat): (s: nat)
    requires j < 19
    ensures s < 19 && ORDER[j] == s && Place(s) == j
  {
    ORDER[j]
  }

  lemma {:induction false} PlaceIs(s: nat)
    requires s < 19
    ensures InPlace(Place(s)) == s
  {
  }

  /** The lengths sent in the first `n` places; the others are zero. */
  function SentFirst(cl: seq<nat>, n: nat): (r: seq<nat>)
    requires |cl| == 19
    ensures |r| == 19
  {
    seq(19, s requires 0 <= s < 19 => if Place(s) < n then cl[s] else 0)
  }

  /** Three bits are enough for each length, and `n` places for all of them. */
  predicate SentIn(cl: seq<nat>, n: nat)
    requires |cl| == 19
  {
    forall s :: 0 <= s < 19 ==> cl[s] <= 7 && (Place(s) >= n ==> cl[s] == 0)
  }

  /** Three bits for each of the places from `j` up to `n`. */
  function OrderBits(cl: seq<nat>, j: nat, n: nat): (e: seq<bool>)
    requires |cl| == 19 && j <= n <= 19
    decreases n - j
  {
    if j == n then [] else ToLsb(cl[InPlace(j)], 3) + OrderBits(cl, j + 1, n)
  }

  lemma {:induction false} SentNext(cl: seq<nat>, j: nat)
    requires |cl| == 19 && j < 19
    ensures SentFirst(cl, j)[InPlace(j) := cl[InPlace(j)]] == SentFirst(cl, j + 1)
  {
    hide Place, InPlace;
    var sent, next := SentFirst(cl, j)[InPlace(j) := cl[InPlace(j)]], SentFirst(cl, j + 1);
    forall s | 0 <= s < 19
      ensures sent[s] == next[s]
    {
      PlaceIs(s);
    }
  }

  lemma {:induction false} OrderAt(input: seq<byte>, pos: nat, hist: seq<byte>, nl: nat, nd: nat, n: nat, j: nat, cl: seq<nat>)
    requires |cl| == 19 && j < n <= 19 && cl[InPlace(j)] <= 7 && At(input, pos, ToLsb(cl[InPlace(j)], 3))
    ensures BitLengths(input, pos, hist, nl, nd, n, j, SentFirst(cl, j)) == BitLengths(input, pos + 3, hist, nl, nd, n, j + 1, SentFirst(cl, j + 1))
  {
    SmallPowers();
    SentNext(cl, j);
    hide SentFirst, Pow2, At, ToLsb, Field, Place, InPlace;
    FieldAt(input, pos, cl[InPlace(j)], 3);
  }

  lemma {:induction false} AllInOrder(input: seq<byte>, pos: nat, hist: seq<byte>, nl: nat, nd: nat, n: nat, cl: seq<nat>)
    requires |cl| == 19 && n <= 19 && SentIn(cl, n) && Accepts(cl)
    ensures BitLengths(input, pos, hist, nl, nd, n, n, SentFirst(cl, n)) == Lengths(input, pos, hist, nl, nd, cl, [])
  {
    hide Accepts, Lengths, Field, Place;
    assert SentFirst(cl, n) == cl;
  }

  lemma {:induction false} OrderRoundTrip(input: seq<byte>, pos: nat, hist: seq<byte>, nl: nat, nd: nat, n: nat, j: nat, cl: seq<nat>)
    requires |cl| == 19 && j <= n <= 19 && SentIn(cl, n) && Accepts(cl) && At(input, pos, OrderBits(cl, j, n))
    ensures BitLengths(input, pos, hist, nl, nd, n, j, SentFirst(cl, j)) == Lengths(input, pos + |OrderBits(cl, j, n)|, hist, nl, nd, cl, [])
    decreases n - j
  {
    hide Accepts, At, Lengths, Field, ToLsb, Place, InPlace, BitLengths, SentFirst, ORDER;
    if j < n {
      assert cl[InPlace(j)] <= 7;
      assert OrderBits(cl, j, n) == ToLsb(cl[InPlace(j)], 3) + OrderBits(cl, j + 1, n);
      hide SentIn, OrderBits;
      AtSplit(input, pos, ToLsb(cl[InPlace(j)], 3), OrderBits(cl, j + 1, n));
      OrderAt(input, pos, hist, nl, nd, n, j, cl);
      OrderRoundTrip(input, pos + 3, hist, nl, nd, n, j + 1, cl);
    } else {
      AllInOrder(input, pos, hist, nl, nd, n, cl);
    }
  }

  // ----- blocks --------------------------------------------------------------------------------------

  /** The codes of a block: `nl` of the lengths that the items give are for literals, and `nc` lengths are sent for the code of the items. */
  datatype Header = Header(nl: nat, nc: nat, cl: seq<nat>, items: seq<Item>) {
    function Lens(): (lens: seq<nat>) {
      GivenAll([], items)
    }

    ghost predicate Good() {
      && 257 <= nl <= 286 && 1 <= |Lens()| - nl <= 30 && 4 <= nc <= 19
      && |cl| == 19 && SentIn(cl, nc)
      && Accepts(cl) && GoodItems(items, [], cl)
      && AcceptsPair(Lens()[..nl], Lens()[nl..]) && HasCode(Lens()[..nl], END_OF_BLOCK)
    }

    function Counts(): (e: seq<bool>)
      requires 257 <= nl <= 286 && 1 <= |Lens()| - nl && 4 <= nc
    {
      ToLsb(nl - 257, 5) + ToLsb(|Lens()| - nl - 1, 5) + ToLsb(nc - 4, 4)
    }

    ghost function Bits(): (e: seq<bool>)
      requires Good()
    {
      Counts() + (OrderBits(cl, 0, nc) + ItemsBits(items, [], cl))
    }
  }

  datatype Piece = Stored(padding: seq<bool>, data: seq<byte>) | Fixed(tokens: seq<Token>) | Dynamic(header: Header, tokens: seq<Token>)

  lemma {:induction false} ThreeFields(input: seq<byte>, pos: nat, x: nat, y: nat, z: nat)
    requires x < 32 && y < 32 && z < 16 && At(input, pos, ToLsb(x, 5) + ToLsb(y, 5) + ToLsb(z, 4))
    ensures pos + 14 <= 8 * |input| && Field(input, pos, 5) == x && Field(input, pos + 5, 5) == y && Field(input, pos + 10, 4) == z
  {
    SmallPowers();
    hide At, Field, ToLsb, Pow2;
    AtSplit(input, pos, ToLsb(x, 5) + ToLsb(y, 5), ToLsb(z, 4));
    AtSplit(input, pos, ToLsb(x, 5), ToLsb(y, 5));
    FieldAt(input, pos, x, 5);
    FieldAt(input, pos + 5, y, 5);
    FieldAt(input, pos + 10, z, 4);
  }

  lemma {:induction false} CountsAt(input: seq<byte>, pos: nat, h: Header)
    requires 257 <= h.nl <= 286 && 1 <= |h.Lens()| - h.nl <= 30 && 4 <= h.nc <= 19 && At(input, pos, h.Counts())
    ensures pos + 14 <= 8 * |input| && Field(input, pos, 5) == h.nl - 257
    ensures Field(input, pos + 5, 5) == |h.Lens()| - h.nl - 1 && Field(input, pos + 10, 4) == h.nc - 4
  {
    hide At, Field, ToLsb, Header.Lens;
    ThreeFields(input, pos, h.nl - 257, |h.Lens()| - h.nl - 1, h.nc - 4);
  }

  lemma {:induction false} NoneSent(cl: seq<nat>)
    requires |cl| == 19
    ensures SentFirst(cl, 0) == seq(19, _ => 0)
  {
    hide Place;
  }

  lemma {:induction false} DynamicAt(input: seq<byte>, pos: nat, hist: seq<byte>, h: Header)
    requires 257 <= h.nl <= 286 && 1 <= |h.Lens()| - h.nl <= 30 && 4 <= h.nc <= 19 && |h.cl| == 19 && At(input, pos, h.Counts())
    ensures Deflate.Dynamic(input, pos, hist) == BitLengths(input, pos + 14, hist, h.nl, |h.Lens()| - h.nl, h.nc, 0, SentFirst(h.cl, 0))
  {
    hide At, Field, BitLengths, SentFirst, Header.Counts, Header.Lens;
    CountsAt(input, pos, h);
    NoneSent(h.cl);
  }

  lemma {:induction false} HeaderRoundTrip(input: seq<byte>, pos: nat, hist: seq<byte>, h: Header)
    requires h.Good() && At(input, pos, h.Bits())
    ensures Deflate.Dynamic(input, pos, hist) == Codes(input, pos + |h.Bits()|, hist, h.Lens()[..h.nl], h.Lens()[h.nl..])
  {
    hide At, Field, Accepts, AcceptsPair, HasCode, BitLengths, Lengths, Codes, SentFirst, GoodItems, Place, OrderBits, ItemsBits, Deflate.Dynamic;
    var nd := |h.Lens()| - h.nl;
    AtSplit(input, pos, h.Counts(), OrderBits(h.cl, 0, h.nc) + ItemsBits(h.items, [], h.cl));
    DynamicAt(input, pos, hist, h);
    AtSplit(input, pos + 14, OrderBits(h.cl, 0, h.nc), ItemsBits(h.items, [], h.cl));
    OrderRoundTrip(input, pos + 14, hist, h.nl, nd, h.nc, 0, h.cl);
    LengthsRoundTrip(input, pos + 14 + |OrderBits(h.cl, 0, h.nc)|, hist, h.nl, nd, h.cl, [], h.items);
  }

  // ----- stored blocks ---------------------------------------------------------------------------------

  function BytesBits(data: seq<byte>): (e: seq<bool>)
    ensures |e| == 8 * |data|
  {
    if data == [] then [] else ToLsb(data[0], 8) + BytesBits(data[1..])
  }

  lemma {:induction false} BytesAt(input: seq<byte>, p: nat, data: seq<byte>)
    requires At(input, 8 * p, BytesBits(data))
    ensures p + |data| <= |input| && input[p..p + |data|] == data
    decreases |data|
  {
    SmallPowers();
    hide At, Field, Pow2, ToLsb;
    if data == [] {
      Inside(input, 8 * p, BytesBits(data));
    } else {
      AtSplit(input, 8 * p, ToLsb(data[0], 8), BytesBits(data[1..]));
      BytesAt(input, p + 1, data[1..]);
      FieldAt(input, 8 * p, data[0], 8);
      ByteField(input, p);
      assert input[p..p + |data|] == [input[p]] + input[p + 1..p + 1 + |data[1..]|];
    }
  }

  lemma {:induction false} Inside(input: seq<byte>, pos: nat, e: seq<bool>)
    requires At(input, pos, e)
    ensures pos + |e| <= 8 * |input|
  {
  }

  function StoredBits(data: seq<byte>): (e: seq<bool>)
    requires |data| < 0x1_0000
    ensures |e| == 32 + 8 * |data|
  {
    (ToLsb(|data|, 16) + ToLsb(0xffff - |data|, 16)) + BytesBits(data)
  }

  lemma {:induction false} StoredCounts(input: seq<byte>, pos: nat, n: nat)
    requires n < 0x1_0000 && At(input, pos, ToLsb(n, 16) + ToLsb(0xffff - n, 16))
    ensures pos + 32 <= 8 * |input| && Field(input, pos, 16) == n && Field(input, pos + 16, 16) == 0xffff - n
  {
    assert Pow2(16) == 0x1_0000 by {
      SmallPowers();
      Pow2Add(8, 8);
    }
    hide At, Field, Pow2, ToLsb;
    AtSplit(input, pos, ToLsb(n, 16), ToLsb(0xffff - n, 16));
    FieldAt(input, pos, n, 16);
    FieldAt(input, pos + 16, 0xffff - n, 16);
  }

  lemma {:induction false} StoredRoundTrip(input: seq<byte>, pos: nat, hist: seq<byte>, data: seq<byte>)
    requires pos % 8 == 0 && |data| < 0x1_0000 && At(input, pos, StoredBits(data))
    ensures StoredLength(input, pos, hist) == Done(pos + |StoredBits(data)|, hist + data)
  {
    hide At, Field, ToLsb, BytesBits;
    var n := |data|;
    AtSplit(input, pos, ToLsb(n, 16) + ToLsb(0xffff - n, 16), BytesBits(data));
    StoredCounts(input, pos, n);
    var p := (pos + 32) / 8;
    assert pos + 32 == 8 * p;
    BytesAt(input, p, data);
  }

  // ----- streams ------------------------------------------------------------------------------------------

  function Kind(p: Piece): (k: nat)
    ensures k <= 2
  {
    match p
    case Stored(_, _) => 0
    case Fixed(_) => 1
    case Dynamic(_, _) => 2
  }

  /** A block whose type bits end at `pos`. */
  ghost predicate GoodPiece(p: Piece, pos: nat, hist: seq<byte>) {
    match p
    case Stored(padding, data) => pos + |padding| == ByteBoundary(pos) && |data| < 0x1_0000
    case Fixed(ts) => AllSayable(ts, hist, FIXED_LITERALS, FIXED_DISTANCES) && HasCode(FIXED_LITERALS, END_OF_BLOCK)
    case Dynamic(h, ts) => h.Good() && AllSayable(ts, hist, h.Lens()[..h.nl], h.Lens()[h.nl..])
  }

  ghost function PieceBits(p: Piece, pos: nat, hist: seq<byte>): (e: seq<bool>)
    requires GoodPiece(p, pos, hist)
  {
    match p
    case Stored(padding, data) => padding + StoredBits(data)
    case Fixed(ts) => CodesBits(ts, hist, FIXED_LITERALS, FIXED_DISTANCES)
    case Dynamic(h, ts) => h.Bits() + CodesBits(ts, hist, h.Lens()[..h.nl], h.Lens()[h.nl..])
  }

  function PieceSaid(p: Piece, hist: seq<byte>): (r: seq<byte>) {
    match p
    case Stored(_, data) => hist + data
    case Fixed(ts) => SaidAll(hist, ts)
    case Dynamic(_, ts) => SaidAll(hist, ts)
  }

  lemma {:induction false} KraftZeros(n: nat)
    ensures ValidLengths(Repeat(0, n)) && Kraft(Repeat(0, n)) == 0
  {
    if n == 0 {
      EmptyKraft();
    } else {
      KraftZeros(n - 1);
      KraftAppend(Repeat(0, n - 1), 0);
      assert Repeat(0, n) == Repeat(0, n - 1) + [0];
    }
  }

  lemma {:induction false} PairIsCode(ll: seq<nat>, dl: seq<nat>)
    requires AcceptsPair(ll, dl)
    ensures IsCode(ll) && IsCode(dl)
  {
    hide Accepts, Kraft;
    AcceptsIsCode(ll);
    if Accepts(dl) {
      AcceptsIsCode(dl);
    } else {
      KraftZeros(|dl|);
      assert dl == Repeat(0, |dl|);
    }
  }

  lemma {:induction false} FixedIsCode()
    ensures IsCode(FIXED_LITERALS) && IsCode(FIXED_DISTANCES) && HasCode(FIXED_LITERALS, END_OF_BLOCK)
  {
    hide Kraft;
    FixedKraft();
    FixedLiteral(END_OF_BLOCK);
  }

  lemma {:induction false} PaddingAt(input: seq<byte>, pos: nat, hist: seq<byte>, padding: seq<bool>, data: seq<byte>)
    requires pos + |padding| == ByteBoundary(pos) && |data| < 0x1_0000 && At(input, pos, padding + StoredBits(data))
    ensures StoredLength(input, ByteBoundary(pos), hist) == Done(pos + |padding + StoredBits(data)|, hist + data)
  {
    hide At, StoredLength, StoredBits;
    AtSplit(input, pos, padding, StoredBits(data));
    StoredRoundTrip(input, ByteBoundary(pos), hist, data);
  }

  /** Each kind of block is read back as what was written. */
  lemma {:induction false} BlockRoundTrip(input: seq<byte>, pos: nat, hist: seq<byte>, p: Piece)
    requires GoodPiece(p, pos, hist) && At(input, pos, PieceBits(p, pos, hist))
    ensures Block(input, pos, hist, Kind(p)) == Done(pos + |PieceBits(p, pos, hist)|, PieceSaid(p, hist))
  {
    hide At, StoredLength, StoredBits, Codes, CodesBits, Deflate.Dynamic, Header.Bits, IsCode, AllSayable, SaidAll, ByteBoundary, AcceptsPair, HasCode;
    match p
    case Stored(padding, data) =>
      PaddingAt(input, pos, hist, padding, data);
    case Fixed(ts) =>
      FixedIsCode();
      CodesRoundTrip(input, pos, hist, FIXED_LITERALS, FIXED_DISTANCES, ts);
    case Dynamic(h, ts) =>
      var ll, dl := h.Lens()[..h.nl], h.Lens()[h.nl..];
      PairIsCode(ll, dl);
      AtSplit(input, pos, h.Bits(), CodesBits(ts, hist, ll, dl));
      HeaderRoundTrip(input, pos, hist, h);
      CodesRoundTrip(input, pos + |h.Bits()|, hist, ll, dl, ts);
  }

  // ----- whole streams ---------------------------------------------------------------------------------------

  function HeadBits(last: bool, kind: nat): (e: seq<bool>)
    ensures |e| == 3
  {
    ToLsb(Weight(last), 1) + ToLsb(kind, 2)
  }

  /** Where the block behind this one begins. */
  ghost function NextPos(p: Piece, pos: nat, hist: seq<byte>): (r: nat)
    requires GoodPiece(p, pos + 3, hist)
  {
    pos + 3 + |PieceBits(p, pos + 3, hist)|
  }

  /** Blocks that can be written from `pos` on, the last one marked. */
  ghost predicate GoodStream(ps: seq<Piece>, pos: nat, hist: seq<byte>)
    decreases |ps|
  {
    && ps != [] && GoodPiece(ps[0], pos + 3, hist)
    && (|ps| == 1 || GoodStream(ps[1..], NextPos(ps[0], pos, hist), PieceSaid(ps[0], hist)))
  }

  ghost function StreamBits(ps: seq<Piece>, pos: nat, hist: seq<byte>): (e: seq<bool>)
    requires GoodStream(ps, pos, hist)
    decreases |ps|
  {
    var p := ps[0];
    if |ps| == 1 then HeadBits(true, Kind(p)) + PieceBits(p, pos + 3, hist)
    else HeadBits(false, Kind(p)) + (PieceBits(p, pos + 3, hist) + StreamBits(ps[1..], NextPos(p, pos, hist), PieceSaid(p, hist)))
  }

  /** The input is this stream. */
  ghost predicate Written(input: seq<byte>, pos: nat, hist: seq<byte>, ps: seq<Piece>) {
    GoodStream(ps, pos, hist) && At(input, pos, StreamBits(ps, pos, hist))
  }

  function StreamSaid(ps: seq<Piece>, hist: seq<byte>): (r: seq<byte>)
    decreases |ps|
  {
    if ps == [] then hist else StreamSaid(ps[1..], PieceSaid(ps[0], hist))
  }

  lemma {:induction false} HeadAt(input: seq<byte>, pos: nat, last: bool, kind: nat)
    requires kind <= 2 && At(input, pos, HeadBits(last, kind))
    ensures pos + 3 <= 8 * |input| && Field(input, pos, 1) == Weight(last) && Field(input, pos + 1, 2) == kind
  {
    SmallPowers();
    hide At, Field, Pow2, ToLsb;
    AtSplit(input, pos, ToLsb(Weight(last), 1), ToLsb(kind, 2));
    FieldAt(input, pos, Weight(last), 1);
    FieldAt(input, pos + 1, kind, 2);
  }

  /** Every stream that can be written is read back as what it says, and ends where its bits end. */
  lemma {:induction false} StreamRoundTrip(input: seq<byte>, pos: nat, hist: seq<byte>, ps: seq<Piece>)
    requires GoodStream(ps, pos, hist) && At(input, pos, StreamBits(ps, pos, hist))
    ensures Blocks(input, pos, hist) == Done(pos + |StreamBits(ps, pos, hist)|, StreamSaid(ps, hist))
    decreases |ps|
  {
    hide At, Block, PieceBits, GoodPiece, PieceSaid, Kind, HeadBits, Field;
    var last, kind := |ps| == 1, Kind(ps[0]);
    var piece, said := PieceBits(ps[0], pos + 3, hist), PieceSaid(ps[0], hist);
    if last {
      AtSplit(input, pos, HeadBits(last, kind), piece);
    } else {
      var rest := StreamBits(ps[1..], pos + 3 + |piece|, said);
      AtSplit(input, pos, HeadBits(last, kind), piece + rest);
      AtSplit(input, pos + 3, piece, rest);
      StreamRoundTrip(input, pos + 3 + |piece|, said, ps[1..]);
    }
    HeadAt(input, pos, last, kind);
    BlockRoundTrip(input, pos + 3, hist, ps[0]);
  }

  // ----- a stream ----------------------------------------------------------------------------------------------

  lemma {:induction false} AtConcat(input: seq<byte>, pos: nat, a: seq<bool>, b: seq<bool>)
    requires At(input, pos, a) && At(input, pos + |a|, b)
    ensures At(input, pos, a + b)
  {
    hide StreamBit;
    assert Peek(input, pos, |a + b|) == Peek(input, pos, |a|) + Peek(input, pos + |a|, |b|);
  }

  lemma {:induction false} ByteThere(input: seq<byte>, p: nat)
    requires p < |input|
    ensures At(input, 8 * p, ToLsb(input[p], 8))
  {
    SmallPowers();
    hide ToLsb, Pow2, StreamBit, Lsb;
    ByteField(input, p);
    LsbOfTo(input[p], 8);
    LsbInjective(Peek(input, 8 * p, 8), ToLsb(input[p], 8));
  }

  /** The bits of all bytes are in their places. */
  lemma {:induction false} BytesThere(input: seq<byte>, p: nat)
    requires p <= |input|
    ensures At(input, 8 * p, BytesBits(input[p..]))
    decreases |input| - p
  {
    if p < |input| {
      hide At, ToLsb;
      BytesThere(input, p + 1);
      ByteThere(input, p);
      assert input[p..][1..] == input[p + 1..];
      assert BytesBits(input[p..]) == ToLsb(input[p], 8) + BytesBits(input[p + 1..]);
      hide BytesBits;
      AtConcat(input, 8 * p, ToLsb(input[p], 8), BytesBits(input[p + 1..]));
    }
  }

  /** A fixed block: the letter a, and eleven bytes from one byte before. */
  const TWELVE: seq<byte> := [75, 68, 2, 0]

  function TwelveTokens(): (ts: seq<Token>) {
    [Literal(97), Match(265, 11, 1)]
  }

  lemma {:induction false} FirstByte()
    ensures ToLsb(75, 8) == [true, true, false, true, false, false, true, false]
  {
  }

  lemma {:induction false} SecondByte()
    ensures ToLsb(68, 8) == [false, false, true, false, false, false, true, false]
  {
  }

  lemma {:induction false} OtherBytes()
    ensures ToLsb(2, 8) == [false, true, false, false, false, false, false, false]
    ensures ToLsb(0, 8) == [false, false, false, false, false, false, false, false]
  {
  }

  lemma {:induction false} LetterCode()
    ensures FromMsb(145, 8) == [true, false, false, true, false, false, false, true]
  {
  }

  lemma {:induction false} LengthCode()
    ensures FromMsb(9, 7) == [false, false, false, true, false, false, true]
  {
  }

  lemma {:induction false} ShortCodes()
    ensures FromMsb(0, 5) == [false, false, false, false, false] && FromMsb(0, 7) == [false, false, false, false, false, false, false]
    ensures ToLsb(1, 1) == [true] && ToLsb(1, 2) == [true, false] && ToLsb(0, 1) == [false] && ToLsb(0, 0) == []
  {
  }

  lemma {:induction false} TwelveBits()
    ensures BytesBits(TWELVE) ==
            ToLsb(1, 1) + ToLsb(1, 2) + (FromMsb(145, 8) + ((FromMsb(9, 7) + ToLsb(0, 1) + (FromMsb(0, 5) + ToLsb(0, 0))) + FromMsb(0, 7))) + [false]
  {
    hide ToLsb, FromMsb, BytesBits;
    FirstByte();
    SecondByte();
    OtherBytes();
    LetterCode();
    LengthCode();
    ShortCodes();
    FourBytes(75, 68, 2, 0);
  }

  lemma {:induction false} FourBytes(a: byte, b: byte, c: byte, d: byte)
    ensures BytesBits([a, b, c, d]) == ToLsb(a, 8) + ToLsb(b, 8) + ToLsb(c, 8) + ToLsb(d, 8)
  {
    OneByte(a, [b, c, d]);
    OneByte(b, [c, d]);
    OneByte(c, [d]);
    OneByte(d, []);
    hide ToLsb;
    assert BytesBits([]) == [];
    hide BytesBits;
    assert [a] + [b, c, d] == [a, b, c, d] && [b] + [c, d] == [b, c, d] && [c] + [d] == [c, d] && [d] + [] == [d];
  }

  lemma {:induction false} OneByte(x: byte, data: seq<byte>)
    ensures BytesBits([x] + data) == ToLsb(x, 8) + BytesBits(data)
  {
    hide ToLsb;
    assert ([x] + data)[1..] == data;
  }

  lemma {:induction false} CopyOne(hist: seq<byte>, x: byte, n: nat)
    requires hist != [] && hist[|hist| - 1] == x
    ensures Copy(hist, 1, n) == hist + seq(n, _ => x)
    decreases n
  {
    if n > 0 {
      CopyOne(hist + [x], x, n - 1);
      assert [x] + seq(n - 1, _ => x) == seq(n, _ => x);
    }
  }

  lemma {:induction false} TwelveSaid(hist: seq<byte>)
    ensures SaidAll(hist, TwelveTokens()) == hist + seq(12, _ => 97)
  {
    var ts := TwelveTokens();
    assert ts[1..] == [ts[1]] && ts[1..][1..] == [];
    CopyOne(hist + [97], 97, 11);
    assert [97] + seq(11, _ => 97) == seq(12, _ => 97);
  }

  lemma {:induction false} TwelveSayable(hist: seq<byte>)
    ensures AllSayable(TwelveTokens(), hist, FIXED_LITERALS, FIXED_DISTANCES) && HasCode(FIXED_LITERALS, END_OF_BLOCK)
    ensures CodesBits(TwelveTokens(), hist, FIXED_LITERALS, FIXED_DISTANCES)
         == FromMsb(145, 8) + ((FromMsb(9, 7) + ToLsb(0, 1) + (FromMsb(0, 5) + ToLsb(0, 0))) + FromMsb(0, 7))
  {
    var ts := TwelveTokens();
    assert ts[1..] == [ts[1]] && ts[1..][1..] == [];
    var ll, dl := FIXED_LITERALS, FIXED_DISTANCES;
    FixedLiteral(256);
    TwelveTokenBits(|hist|);
    hide FromMsb, ToLsb, CodeNumber, Copy, TokenBits, Sayable, HasCode;
    assert Said(hist, ts[0]) == hist + [97];
    assert HasCode(ll, 256) && Code(ll, 256) == FromMsb(0, 7);
    assert CodesBits(ts[1..], hist + [97], ll, dl) == TokenBits(ts[1], |hist| + 1, ll, dl) + Code(ll, 256);
  }

  lemma {:induction false} TwelveTokenBits(size: nat)
    ensures var ts, ll, dl := TwelveTokens(), FIXED_LITERALS, FIXED_DISTANCES;
            && Sayable(ts[0], size, ll, dl) && TokenBits(ts[0], size, ll, dl) == FromMsb(145, 8)
            && Sayable(ts[1], size + 1, ll, dl)
            && TokenBits(ts[1], size + 1, ll, dl) == FromMsb(9, 7) + ToLsb(0, 1) + (FromMsb(0, 5) + ToLsb(0, 0))
            && HasCode(ll, 256)
  {
    var ts, ll, dl := TwelveTokens(), FIXED_LITERALS, FIXED_DISTANCES;
    FixedLiteral(97);
    FixedLiteral(256);
    TwelveLength();
    TwelveDistance();
    hide FromMsb, ToLsb, CodeNumber, DistSymbol, Covers, LengthBits, DistBits;
  }

  lemma {:induction false} TwelveLength()
    ensures HasCode(FIXED_LITERALS, 265) && Covers(LENGTH_BASE, LENGTH_EXTRA, 8, 11)
    ensures LengthBits(265, 11, FIXED_LITERALS) == FromMsb(9, 7) + ToLsb(0, 1)
  {
    FixedLiteral(265);
    hide FromMsb, ToLsb, CodeNumber;
    assert Pow2(1) == 2;
    hide Pow2;
  }

  lemma {:induction false} TwelveDistance()
    ensures HasCode(FIXED_DISTANCES, DistSymbol(1)) && DistBits(1, FIXED_DISTANCES) == FromMsb(0, 5) + ToLsb(0, 0)
  {
    FixedDistance(0);
    DistanceOne();
    hide FromMsb, ToLsb, CodeNumber, DistSymbol;
  }

  lemma {:induction false} DistanceOne()
    ensures DistSymbol(1) == 0 && DIST_BASE[0] == 1 && DIST_EXTRA[0] == 0
  {
    hide SymbolFor;
    DistanceCodes();
    hide Pow2;
    TilesOnce(DIST_BASE, DIST_EXTRA, 30, 1, 32769, 1);
    assert Covers(DIST_BASE, DIST_EXTRA, 0, 1) by {
      SmallPowers();
    }
  }

  /** Four bytes that stand for twelve letters. */
  lemma {:induction false} TwelveExample(hist: seq<byte>)
    ensures Blocks(TWELVE, 0, hist) == Done(31, hist + seq(12, _ => 97))
  {
    hide BytesBits, FromMsb, ToLsb, CodesBits, AllSayable, SaidAll, At, HasCode;
    TwelveBits();
    TwelveSaid(hist);
    TwelveSayable(hist);
    BytesThere(TWELVE, 0);
    assert TWELVE[0..] == TWELVE;
    var ps := [Fixed(TwelveTokens())];
    assert PieceBits(ps[0], 3, hist) == CodesBits(TwelveTokens(), hist, FIXED_LITERALS, FIXED_DISTANCES);
    var e := StreamBits(ps, 0, hist);
    assert |e| == 31;
    AtSplit(TWELVE, 0, e, [false]);
    StreamRoundTrip(TWELVE, 0, hist, ps);
  }
}
