/**
  The streams that are read to their end are those that can be written.
 */
module Decoder {
  import opened Bits
  import opened Canonical
  import opened Deflate
  import opened Alphabets
  import opened Encoder
  import Strict

  // ----- bits that were read -------------------------------------------------------------------

  lemma {:induction false} ToLsbOf(s: seq<bool>)
    ensures ToLsb(Lsb(s), |s|) == s
  {
    LsbBound(s);
    LsbOfTo(Lsb(s), |s|);
    LsbInjective(ToLsb(Lsb(s), |s|), s);
  }

  lemma {:induction false} FieldThere(input: seq<byte>, pos: nat, n: nat)
    requires pos + n <= 8 * |input|
    ensures At(input, pos, ToLsb(Field(input, pos, n), n))
  {
    hide StreamBit;
    ToLsbOf(Peek(input, pos, n));
  }

  lemma {:induction false} SymbolThere(input: seq<byte>, pos: nat, lens: seq<nat>)
    requires IsCode(lens) && ReadSymbol(input, pos, lens).Read?
    ensures var s := ReadSymbol(input, pos, lens).value; HasCode(lens, s) && At(input, pos, Code(lens, s))
  {
    hide Code, Kraft, StreamBit, FromMsb;
    var s := ReadSymbol(input, pos, lens).value;
    var bits := Peek(input, pos, BMAX);
    assert StartsWith(lens, s, bits);
    assert Peek(input, pos, lens[s]) == bits[..lens[s]] == Code(lens, s);
  }

  // ----- literals and matches ----------------------------------------------------------------------

  lemma {:induction false} DistanceThere(input: seq<byte>, pos: nat, hist: seq<byte>, ll: seq<nat>, dl: seq<nat>, len: nat) returns (dist: nat)
    requires IsCode(dl) && Distance(input, pos, hist, ll, dl, len).Done?
    ensures 1 <= dist <= 32768 && dist <= |hist| && HasCode(dl, DistSymbol(dist)) && At(input, pos, DistBits(dist, dl))
  {
    hide Field, At, Codes, Code, Copy, Pow2, IsCode, DistSymbol;
    var read := ReadSymbol(input, pos, dl);
    var s, at := read.value, pos + read.used;
    hide ReadSymbol;
    SymbolThere(input, pos, dl);
    var extra := Field(input, at, DIST_EXTRA[s]);
    FieldThere(input, at, DIST_EXTRA[s]);
    dist := DIST_BASE[s] + extra;
    SayDistance(s, extra);
    AtConcat(input, pos, Code(dl, s), ToLsb(extra, DIST_EXTRA[s]));
  }

  lemma {:induction false} SayDistance(s: nat, extra: nat)
    requires s < 30 && |DIST_BASE| == |DIST_EXTRA| == 30 && extra < Pow2(DIST_EXTRA[s])
    ensures 1 <= DIST_BASE[s] + extra <= 32768 && DistSymbol(DIST_BASE[s] + extra) == s
  {
    hide Pow2, SymbolFor, Tiles;
    DistanceCodes();
    TileSays(DIST_BASE, DIST_EXTRA, 30, 1, 32769, s, extra);
  }

  lemma {:induction false} MatchRead(input: seq<byte>, pos: nat, hist: seq<byte>, ll: seq<nat>, dl: seq<nat>, s: nat, used: nat)
    requires ReadSymbol(input, pos, ll) == Read(s, used) && s > END_OF_BLOCK && Codes(input, pos, hist, ll, dl).Done?
    ensures 257 <= s < NO_LENGTH
    ensures var base, extra := LENGTH_BASE[s - 257], LENGTH_EXTRA[s - 257];
            pos + used + extra <= 8 * |input| && Distance(input, pos + used + extra, hist, ll, dl, base + Field(input, pos + used, extra)).Done?
  {
    LengthEnds();
    hide ReadSymbol, Distance, Field, LENGTH_BASE, LENGTH_EXTRA;
  }

  /** The token that comes next. */
  lemma {:induction false} TokenThere(input: seq<byte>, pos: nat, hist: seq<byte>, ll: seq<nat>, dl: seq<nat>) returns (t: Token)
    requires IsCode(ll) && IsCode(dl) && Codes(input, pos, hist, ll, dl).Done?
    requires ReadSymbol(input, pos, ll).value != END_OF_BLOCK
    ensures Sayable(t, |hist|, ll, dl) && At(input, pos, TokenBits(t, |hist|, ll, dl))
  {
    hide Field, At, Code, Pow2, IsCode, DistSymbol, Distance, DistBits, LengthBits, HasCode, Covers;
    SymbolThere(input, pos, ll);
    var read := ReadSymbol(input, pos, ll);
    assert read.Read? && read.used == ll[read.value];
    var s, at := read.value, pos + read.used;
    hide ReadSymbol, Codes;
    if s < END_OF_BLOCK {
      t := Literal(s as byte);
    } else {
      MatchRead(input, pos, hist, ll, dl, s, read.used);
      var extra := LENGTH_EXTRA[s - 257];
      var v := Field(input, at, extra);
      var len := LENGTH_BASE[s - 257] + v;
      var dist := DistanceThere(input, at + extra, hist, ll, dl, len);
      FieldThere(input, at, extra);
      t := Match(s, len, dist);
      LengthThere(input, pos, ll, s, v);
      assert |LengthBits(s, len, ll)| == ll[s] + extra by {
        LengthSize(s, len, ll);
      }
      AtConcat(input, pos, LengthBits(s, len, ll), DistBits(dist, dl));
    }
  }

  lemma {:induction false} LengthSize(s: nat, len: nat, ll: seq<nat>)
    requires 257 <= s < NO_LENGTH && HasCode(ll, s) && Covers(LENGTH_BASE, LENGTH_EXTRA, s - 257, len)
    ensures |LengthBits(s, len, ll)| == ll[s] + LENGTH_EXTRA[s - 257]
  {
    hide Code, ToLsb, Pow2;
  }

  lemma {:induction false} LengthThere(input: seq<byte>, pos: nat, ll: seq<nat>, s: nat, v: nat)
    requires 257 <= s < NO_LENGTH && HasCode(ll, s) && At(input, pos, Code(ll, s))
    requires v < Pow2(LENGTH_EXTRA[s - 257]) && At(input, pos + ll[s], ToLsb(v, LENGTH_EXTRA[s - 257]))
    ensures Covers(LENGTH_BASE, LENGTH_EXTRA, s - 257, LENGTH_BASE[s - 257] + v)
    ensures At(input, pos, LengthBits(s, LENGTH_BASE[s - 257] + v, ll))
  {
    hide At, Code, Pow2, ToLsb;
    AtConcat(input, pos, Code(ll, s), ToLsb(v, LENGTH_EXTRA[s - 257]));
  }

  lemma {:induction false} CodesThere(input: seq<byte>, pos: nat, hist: seq<byte>, ll: seq<nat>, dl: seq<nat>) returns (ts: seq<Token>)
    requires IsCode(ll) && IsCode(dl) && Codes(input, pos, hist, ll, dl).Done?
    ensures HasCode(ll, END_OF_BLOCK) && AllSayable(ts, hist, ll, dl) && At(input, pos, CodesBits(ts, hist, ll, dl))
    decreases 8 * |input| - pos
  {
    hide At, Code, IsCode, TokenBits, Said, Sayable, Distance, LengthExtra;
    SymbolThere(input, pos, ll);
    if ReadSymbol(input, pos, ll).value == END_OF_BLOCK {
      ts := [];
    } else {
      hide Codes, ReadSymbol;
      var t := TokenThere(input, pos, hist, ll, dl);
      TokenAt(input, pos, hist, ll, dl, t);
      var first := TokenBits(t, |hist|, ll, dl);
      TokenNotEmpty(t, |hist|, ll, dl);
      Inside(input, pos, first);
      var more := CodesThere(input, pos + |first|, Said(hist, t), ll, dl);
      ts := [t] + more;
      assert ts[1..] == more;
      AtConcat(input, pos, first, CodesBits(more, Said(hist, t), ll, dl));
    }
  }

  lemma {:induction false} TokenNotEmpty(t: Token, size: nat, ll: seq<nat>, dl: seq<nat>)
    requires Sayable(t, size, ll, dl)
    ensures |TokenBits(t, size, ll, dl)| > 0
  {
    hide Covers, DistSymbol;
  }

  // ----- code lengths ---------------------------------------------------------------------------------

  lemma {:induction false} RepeatThere(input: seq<byte>, pos: nat, cl: seq<nat>, i: Item, v: nat)
    requires HasCode(cl, ItemSymbol(i)) && At(input, pos, Code(cl, ItemSymbol(i)))
    requires match i
             case Plain(_) => true
             case Again(n) => n == 3 + v && At(input, pos + cl[16], ToLsb(v, 2))
             case None(n) => (n == 3 + v && v < 8 && At(input, pos + cl[17], ToLsb(v, 3))) || (n == 11 + v && At(input, pos + cl[18], ToLsb(v, 7)))
    ensures At(input, pos, ItemBits(i, cl))
  {
    hide At, Code, ToLsb;
    if i.Plain? {
      assert Code(cl, i.c) + [] == Code(cl, i.c);
    } else {
      AtConcat(input, pos, Code(cl, ItemSymbol(i)), ItemExtra(i));
    }
  }

  lemma {:induction false} RepeatRead(input: seq<byte>, pos: nat, hist: seq<byte>, nl: nat, nd: nat, cl: seq<nat>, lens: seq<nat>, c: nat, used: nat)
    requires Accepts(cl) && |lens| < nl + nd && ReadLength(input, pos, cl) == Read(c, used) && c >= 16
    requires Lengths(input, pos, hist, nl, nd, cl, lens).Done?
    ensures var extra, least := if c == 18 then 7 else c - 14, if c == 18 then 11 else 3;
            pos + used + extra <= 8 * |input| && |lens| + least + Field(input, pos + used, extra) <= nl + nd && (c == 16 ==> lens != [])
  {
    hide Accepts, ReadLength, Field, AcceptsPair, Codes;
  }

  /** The item that comes next. */
  lemma {:induction false} ItemThere(input: seq<byte>, pos: nat, hist: seq<byte>, nl: nat, nd: nat, cl: seq<nat>, lens: seq<nat>) returns (i: Item)
    requires Accepts(cl) && Kraft(cl) == Whole && |cl| == 19 && |lens| < nl + nd && Lengths(input, pos, hist, nl, nd, cl, lens).Done?
    ensures GoodItem(i, lens, cl) && |Given(lens, i)| <= nl + nd && At(input, pos, ItemBits(i, cl))
  {
    hide At, Code, Field, ReadSymbol, ReadLength, Accepts, Kraft, HasCode, Repeat, ItemBits, ItemExtra;
    Strict.CompleteIsStrict(input, pos, cl);
    AcceptsIsCode(cl);
    hide IsCode;
    assert ReadSymbol(input, pos, cl).Read? by {
      NotCut(input, pos, hist, nl, nd, cl, lens);
    }
    hide Lengths;
    var read := ReadSymbol(input, pos, cl);
    var c, at := read.value, pos + read.used;
    SymbolThere(input, pos, cl);
    LengthUsed(input, pos, cl);
    if c < 16 {
      i := Plain(c);
      RepeatThere(input, pos, cl, i, 0);
    } else {
      RepeatRead(input, pos, hist, nl, nd, cl, lens, c, read.used);
      i := RepeatItem(input, pos, cl, lens, c, nl + nd);
    }
  }

  lemma {:induction false} RepeatItem(input: seq<byte>, pos: nat, cl: seq<nat>, lens: seq<nat>, c: nat, total: nat) returns (i: Item)
    requires 16 <= c <= 18 && HasCode(cl, c) && At(input, pos, Code(cl, c)) && (c == 16 ==> lens != [])
    requires var extra, least := if c == 18 then 7 else c - 14, if c == 18 then 11 else 3;
             pos + cl[c] + extra <= 8 * |input| && |lens| + least + Field(input, pos + cl[c], extra) <= total
    ensures GoodItem(i, lens, cl) && |Given(lens, i)| <= total && At(input, pos, ItemBits(i, cl))
  {
    SmallPowers();
    hide At, Code, Pow2, Field, ToLsb, ItemBits, ItemExtra;
    var extra := if c == 18 then 7 else c - 14;
    var v := Field(input, pos + cl[c], extra);
    FieldThere(input, pos + cl[c], extra);
    assert v < Pow2(extra);
    i := if c == 16 then Again(3 + v) else if c == 17 then None(3 + v) else None(11 + v);
    RepeatThere(input, pos, cl, i, v);
  }

  lemma {:induction false} NotCut(input: seq<byte>, pos: nat, hist: seq<byte>, nl: nat, nd: nat, cl: seq<nat>, lens: seq<nat>)
    requires Accepts(cl) && |lens| < nl + nd && Lengths(input, pos, hist, nl, nd, cl, lens).Done?
    ensures ReadLength(input, pos, cl).Read?
  {
    hide Accepts, ReadLength, Field, AcceptsPair, Codes;
  }

  lemma {:induction false} LengthUsed(input: seq<byte>, pos: nat, cl: seq<nat>)
    requires ReadSymbol(input, pos, cl).Read? && |cl| == 19
    ensures var read := ReadSymbol(input, pos, cl); read.value < 19 && read.used == cl[read.value]
  {
  }

  lemma {:induction false} LengthsThere(input: seq<byte>, pos: nat, hist: seq<byte>, nl: nat, nd: nat, cl: seq<nat>, lens: seq<nat>) returns (items: seq<Item>)
    requires Accepts(cl) && Kraft(cl) == Whole && |cl| == 19 && |lens| <= nl + nd && Lengths(input, pos, hist, nl, nd, cl, lens).Done?
    ensures GoodItems(items, lens, cl) && |GivenAll(lens, items)| == nl + nd
    ensures AcceptsPair(GivenAll(lens, items)[..nl], GivenAll(lens, items)[nl..])
    ensures At(input, pos, ItemsBits(items, lens, cl))
    decreases nl + nd - |lens|
  {
    hide At, Accepts, Kraft, AcceptsPair, Codes, GoodItem, ReadLength, Field, ItemBits;
    if |lens| == nl + nd {
      items := [];
      LengthsEnd(input, pos, hist, nl, nd, cl, lens);
      hide Lengths;
      NothingAt(input, pos);
    } else {
      hide Lengths;
      var i := ItemThere(input, pos, hist, nl, nd, cl, lens);
      ItemAt(input, pos, hist, nl, nd, cl, lens, i);
      ItemAdds(i, lens, cl);
      var more := LengthsThere(input, pos + |ItemBits(i, cl)|, hist, nl, nd, cl, Given(lens, i));
      items := [i] + more;
      assert items[1..] == more;
      AtConcat(input, pos, ItemBits(i, cl), ItemsBits(more, Given(lens, i), cl));
    }
  }

  lemma {:induction false} LengthsEnd(input: seq<byte>, pos: nat, hist: seq<byte>, nl: nat, nd: nat, cl: seq<nat>, lens: seq<nat>)
    requires Accepts(cl) && |lens| == nl + nd && Lengths(input, pos, hist, nl, nd, cl, lens).Done?
    ensures AcceptsPair(lens[..nl], lens[nl..]) && Codes(input, pos, hist, lens[..nl], lens[nl..]).Done? && pos <= 8 * |input|
  {
    hide Accepts, AcceptsPair, Codes, ReadLength, Field;
  }

  lemma {:induction false} NothingAt(input: seq<byte>, pos: nat)
    requires pos <= 8 * |input|
    ensures At(input, pos, [])
  {
  }

  lemma {:induction false} ItemAdds(i: Item, lens: seq<nat>, cl: seq<nat>)
    requires GoodItem(i, lens, cl)
    ensures |Given(lens, i)| > |lens| && HasCode(cl, ItemSymbol(i))
  {
    hide HasCode;
  }

  // ----- headers ------------------------------------------------------------------------------------------

  /** The lengths of the code-length code, given those sent before. */
  lemma {:induction false} OrderThere(input: seq<byte>, pos: nat, hist: seq<byte>, nl: nat, nd: nat, n: nat, j: nat, cur: seq<nat>) returns (cl: seq<nat>)
    requires |cur| == 19 && j <= n <= 19 && SentIn(cur, j) && BitLengths(input, pos, hist, nl, nd, n, j, cur).Done?
    ensures |cl| == 19 && SentIn(cl, n) && SentFirst(cl, j) == cur && Accepts(cl) && At(input, pos, OrderBits(cl, j, n))
    ensures Lengths(input, pos + |OrderBits(cl, j, n)|, hist, nl, nd, cl, []).Done?
    decreases n - j
  {
    hide At, Accepts, Lengths, Field, Place, InPlace, ToLsb;
    if j == n {
      cl := cur;
      AllSent(cl, n);
      hide SentIn, SentFirst;
      NothingAt(input, pos);
    } else {
      var v, next := Field(input, pos, 3), cur[InPlace(j) := Field(input, pos, 3)];
      assert next == cur[ORDER[j] := v];
      assert BitLengths(input, pos + 3, hist, nl, nd, n, j + 1, next).Done?;
      FieldThere(input, pos, 3);
      hide BitLengths;
      ThreeBits(v);
      NextSent(cur, j, v);
      hide SentIn, SentFirst, Pow2;
      cl := OrderThere(input, pos + 3, hist, nl, nd, n, j + 1, next);
      BeforeNext(cl, cur, j, v);
      AtConcat(input, pos, ToLsb(v, 3), OrderBits(cl, j + 1, n));
    }
  }

  lemma {:induction false} ThreeBits(v: nat)
    ensures v < Pow2(3) <==> v <= 7
  {
    SmallPowers();
  }

  lemma {:induction false} AllSent(cl: seq<nat>, n: nat)
    requires |cl| == 19 && SentIn(cl, n)
    ensures SentFirst(cl, n) == cl
  {
    hide Place;
  }

  lemma {:induction false} NextSent(cur: seq<nat>, j: nat, v: nat)
    requires |cur| == 19 && j < 19 && SentIn(cur, j) && v <= 7
    ensures SentIn(cur[InPlace(j) := v], j + 1)
  {
    hide Place, InPlace;
    forall s | 0 <= s < 19
      ensures var next := cur[InPlace(j) := v]; next[s] <= 7 && (Place(s) >= j + 1 ==> next[s] == 0)
    {
    }
  }

  lemma {:induction false} BeforeNext(cl: seq<nat>, cur: seq<nat>, j: nat, v: nat)
    requires |cl| == |cur| == 19 && j < 19 && SentIn(cur, j) && SentFirst(cl, j + 1) == cur[InPlace(j) := v]
    ensures SentFirst(cl, j) == cur && cl[InPlace(j)] == v
  {
    hide Place, InPlace;
    var next := cur[InPlace(j) := v];
    assert next[InPlace(j)] == SentFirst(cl, j + 1)[InPlace(j)];
    forall s | 0 <= s < 19
      ensures SentFirst(cl, j)[s] == cur[s]
    {
      PlaceIs(s);
      assert next[s] == SentFirst(cl, j + 1)[s];
    }
  }

  // ----- blocks ----------------------------------------------------------------------------------------------

  /** Lengths that lead to codes come from a complete code. */
  lemma {:induction false} IsComplete(input: seq<byte>, pos: nat, hist: seq<byte>, nl: nat, nd: nat, cl: seq<nat>)
    requires Accepts(cl) && 257 <= nl <= 286 && Lengths(input, pos, hist, nl, nd, cl, []).Done?
    ensures Kraft(cl) == Whole
  {
    hide Accepts, Kraft, Lengths;
    Strict.AcceptsKraft(cl);
    if Kraft(cl) < Whole {
      Strict.OneCodeIsBad(input, pos, hist, nl, nd, cl, []);
    }
  }

  lemma {:induction false} CountsThere(input: seq<byte>, pos: nat)
    requires pos + 14 <= 8 * |input|
    ensures At(input, pos, ToLsb(Field(input, pos, 5), 5) + ToLsb(Field(input, pos + 5, 5), 5) + ToLsb(Field(input, pos + 10, 4), 4))
  {
    hide At, Field, ToLsb;
    FieldThere(input, pos, 5);
    FieldThere(input, pos + 5, 5);
    FieldThere(input, pos + 10, 4);
    var nl, nd := ToLsb(Field(input, pos, 5), 5), ToLsb(Field(input, pos + 5, 5), 5);
    AtConcat(input, pos, nl, nd);
    AtConcat(input, pos, nl + nd, ToLsb(Field(input, pos + 10, 4), 4));
  }

  lemma {:induction false} DynamicThere(input: seq<byte>, pos: nat, hist: seq<byte>, none: seq<nat>)
    requires Deflate.Dynamic(input, pos, hist).Done? && |none| == 19 && forall s :: 0 <= s < 19 ==> none[s] == 0
    ensures pos + 14 <= 8 * |input| && Field(input, pos, 5) <= 29 && Field(input, pos + 5, 5) <= 29 && Field(input, pos + 10, 4) <= 15
    ensures BitLengths(input, pos + 14, hist, 257 + Field(input, pos, 5), 1 + Field(input, pos + 5, 5), 4 + Field(input, pos + 10, 4), 0, none).Done?
    ensures SentIn(none, 0)
  {
    hide BitLengths, Field, Place;
    Strict.FourBits(input, pos + 10);
    assert none == seq(19, _ => 0);
  }

  /** The lengths of a block's own codes. */
  lemma {:induction false} OwnLengthsThere(input: seq<byte>, pos: nat, hist: seq<byte>, nl: nat, nd: nat, nc: nat) returns (cl: seq<nat>, items: seq<Item>)
    requires 257 <= nl <= 286 && nc <= 19 && BitLengths(input, pos, hist, nl, nd, nc, 0, Repeat(0, 19)).Done? && SentIn(Repeat(0, 19), 0)
    ensures |cl| == 19 && SentIn(cl, nc) && Accepts(cl) && GoodItems(items, [], cl)
    ensures var lens := GivenAll([], items);
            && |lens| == nl + nd && AcceptsPair(lens[..nl], lens[nl..])
            && At(input, pos, OrderBits(cl, 0, nc) + ItemsBits(items, [], cl))
            && Codes(input, pos + |OrderBits(cl, 0, nc)| + |ItemsBits(items, [], cl)|, hist, lens[..nl], lens[nl..]).Done?
  {
    hide At, Accepts, Kraft, AcceptsPair, Codes, Lengths, BitLengths, Place, SentIn, SentFirst, GoodItems, OrderBits, ItemsBits, GivenAll;
    cl := OrderThere(input, pos, hist, nl, nd, nc, 0, Repeat(0, 19));
    var at := pos + |OrderBits(cl, 0, nc)|;
    IsComplete(input, at, hist, nl, nd, cl);
    items := LengthsThere(input, at, hist, nl, nd, cl, []);
    LengthsRoundTrip(input, at, hist, nl, nd, cl, [], items);
    AtConcat(input, pos, OrderBits(cl, 0, nc), ItemsBits(items, [], cl));
  }

  lemma {:induction false} HeaderIs(nl: nat, nc: nat, cl: seq<nat>, items: seq<Item>, nd: nat)
    requires 257 <= nl <= 286 && 1 <= nd <= 30 && 4 <= nc <= 19 && |cl| == 19 && SentIn(cl, nc) && Accepts(cl) && GoodItems(items, [], cl)
    requires var lens := GivenAll([], items);
             |lens| == nl + nd && AcceptsPair(lens[..nl], lens[nl..]) && HasCode(lens[..nl], END_OF_BLOCK)
    ensures var h := Header(nl, nc, cl, items);
            && h.Good() && h.Lens() == GivenAll([], items)
            && h.Bits() == ToLsb(nl - 257, 5) + ToLsb(nd - 1, 5) + ToLsb(nc - 4, 4) + (OrderBits(cl, 0, nc) + ItemsBits(items, [], cl))
  {
    hide Accepts, AcceptsPair, SentIn, GoodItems, OrderBits, ItemsBits, HasCode, GivenAll, ToLsb;
  }

  /** The header and the tokens of a block with codes of its own. */
  lemma {:induction false} HeaderThere(input: seq<byte>, pos: nat, hist: seq<byte>) returns (h: Header, ts: seq<Token>)
    requires Deflate.Dynamic(input, pos, hist).Done?
    ensures h.Good() && AllSayable(ts, hist, h.Lens()[..h.nl], h.Lens()[h.nl..])
    ensures At(input, pos, h.Bits() + CodesBits(ts, hist, h.Lens()[..h.nl], h.Lens()[h.nl..]))
  {
    hide At, Accepts, Kraft, AcceptsPair, Codes, BitLengths, Field, SentIn, GoodItems, OrderBits, ItemsBits, CodesBits, AllSayable, HasCode, IsCode, GivenAll, ToLsb;
    hide Header.Good, Header.Bits, Header.Lens;
    var nl, nd, nc := 257 + Field(input, pos, 5), 1 + Field(input, pos + 5, 5), 4 + Field(input, pos + 10, 4);
    DynamicThere(input, pos, hist, Repeat(0, 19));
    hide Deflate.Dynamic;
    CountsThere(input, pos);
    var cl, items := OwnLengthsThere(input, pos + 14, hist, nl, nd, nc);
    var counts, own := ToLsb(nl - 257, 5) + ToLsb(nd - 1, 5) + ToLsb(nc - 4, 4), OrderBits(cl, 0, nc) + ItemsBits(items, [], cl);
    AtConcat(input, pos, counts, own);
    var lens := GivenAll([], items);
    PairIsCode(lens[..nl], lens[nl..]);
    ts := CodesThere(input, pos + |counts + own|, hist, lens[..nl], lens[nl..]);
    h := Header(nl, nc, cl, items);
    HeaderIs(nl, nc, cl, items, nd);
    AtConcat(input, pos, h.Bits(), CodesBits(ts, hist, lens[..nl], lens[nl..]));
  }

  lemma {:induction false} BytesConcat(a: seq<byte>, b: seq<byte>)
    ensures BytesBits(a + b) == BytesBits(a) + BytesBits(b)
  {
    hide ToLsb;
    if a == [] {
      assert a + b == b;
    } else {
      BytesConcat(a[1..], b);
      assert (a + b)[1..] == a[1..] + b;
    }
  }

  lemma {:induction false} DataThere(input: seq<byte>, p: nat, n: nat)
    requires p + n <= |input|
    ensures At(input, 8 * p, BytesBits(input[p..p + n]))
  {
    hide At, BytesBits;
    BytesThere(input, p);
    assert input[p..] == input[p..p + n] + input[p + n..];
    BytesConcat(input[p..p + n], input[p + n..]);
    AtSplit(input, 8 * p, BytesBits(input[p..p + n]), BytesBits(input[p + n..]));
  }

  lemma {:induction false} StoredCountsThere(input: seq<byte>, pos: nat, n: nat)
    requires pos + 32 <= 8 * |input| && Field(input, pos, 16) == n && Field(input, pos + 16, 16) + n == 0xffff
    ensures At(input, pos, ToLsb(n, 16) + ToLsb(0xffff - n, 16))
  {
    hide At, Field, ToLsb;
    FieldThere(input, pos, 16);
    FieldThere(input, pos + 16, 16);
    AtConcat(input, pos, ToLsb(n, 16), ToLsb(0xffff - n, 16));
  }

  lemma {:induction false} StoredThere(input: seq<byte>, pos: nat, hist: seq<byte>) returns (data: seq<byte>)
    requires pos % 8 == 0 && StoredLength(input, pos, hist).Done?
    ensures |data| < 0x1_0000 && At(input, pos, StoredBits(data))
  {
    hide At, Field, BytesBits, ToLsb;
    var n, p := Field(input, pos, 16), (pos + 32) / 8;
    assert 8 * p == pos + 32;
    StoredCountsThere(input, pos, n);
    data := input[p..p + n];
    DataThere(input, p, n);
    AtConcat(input, pos, ToLsb(n, 16) + ToLsb(0xffff - n, 16), BytesBits(data));
  }

  lemma {:induction false} PaddingThere(input: seq<byte>, pos: nat, hist: seq<byte>) returns (p: Piece)
    requires StoredLength(input, ByteBoundary(pos), hist).Done?
    ensures p.Stored? && GoodPiece(p, pos, hist) && At(input, pos, PieceBits(p, pos, hist))
  {
    var padding := Peek(input, pos, ByteBoundary(pos) - pos);
    assert At(input, pos, padding);
    hide At, StoredLength, StoredBits;
    var data := StoredThere(input, ByteBoundary(pos), hist);
    p := Stored(padding, data);
    AtConcat(input, pos, padding, StoredBits(data));
  }

  /** Each kind of block. */
  lemma {:induction false} BlockThere(input: seq<byte>, pos: nat, hist: seq<byte>, kind: nat) returns (p: Piece)
    requires Block(input, pos, hist, kind).Done?
    ensures Kind(p) == kind && GoodPiece(p, pos, hist) && At(input, pos, PieceBits(p, pos, hist))
  {
    hide At, StoredLength, StoredBits, Codes, CodesBits, Deflate.Dynamic, Header.Bits, IsCode, AllSayable, ByteBoundary, HasCode, Header.Good;
    if kind == 0 {
      p := PaddingThere(input, pos, hist);
    } else if kind == 1 {
      FixedIsCode();
      var ts := CodesThere(input, pos, hist, FIXED_LITERALS, FIXED_DISTANCES);
      p := Fixed(ts);
    } else {
      var h, ts := HeaderThere(input, pos, hist);
      p := Piece.Dynamic(h, ts);
    }
  }

  // ----- streams -----------------------------------------------------------------------------------------------

  lemma {:induction false} HeadThere(input: seq<byte>, pos: nat, last: bool)
    requires pos + 3 <= 8 * |input| && Field(input, pos, 1) == Weight(last)
    ensures At(input, pos, HeadBits(last, Field(input, pos + 1, 2)))
  {
    hide At, Field, ToLsb;
    FieldThere(input, pos, 1);
    FieldThere(input, pos + 1, 2);
    AtConcat(input, pos, ToLsb(Weight(last), 1), ToLsb(Field(input, pos + 1, 2), 2));
  }

  /** What a stream that is read to its end was written as. */
  lemma {:induction false} StreamThere(input: seq<byte>, pos: nat, hist: seq<byte>) returns (ps: seq<Piece>)
    requires Blocks(input, pos, hist).Done?
    ensures GoodStream(ps, pos, hist) && At(input, pos, StreamBits(ps, pos, hist))
    decreases 8 * |input| - pos
  {
    hide At, Block, PieceBits, GoodPiece, PieceSaid, Kind, HeadBits, Field;
    var last, kind := Field(input, pos, 1) != 0, Field(input, pos + 1, 2);
    OneBit(input, pos);
    HeadThere(input, pos, last);
    var p := BlockThere(input, pos + 3, hist, kind);
    BlockRoundTrip(input, pos + 3, hist, p);
    var head, piece := HeadBits(last, kind), PieceBits(p, pos + 3, hist);
    if last {
      ps := [p];
      AtConcat(input, pos, head, piece);
    } else {
      var more := StreamThere(input, NextPos(p, pos, hist), PieceSaid(p, hist));
      ps := [p] + more;
      assert ps[1..] == more;
      var rest := StreamBits(more, NextPos(p, pos, hist), PieceSaid(p, hist));
      AtConcat(input, pos + 3, piece, rest);
      AtConcat(input, pos, head, piece + rest);
    }
  }

  /** A stream is read to an end exactly if it is written by section 3.2 of RFC 1951, and then gives what was written. */
  lemma {:induction false} ReadIffWritten(input: seq<byte>, pos: nat, hist: seq<byte>)
    ensures Blocks(input, pos, hist).Done? <==> exists ps :: Written(input, pos, hist, ps)
    ensures forall ps :: Written(input, pos, hist, ps) ==> Blocks(input, pos, hist) == Done(pos + |StreamBits(ps, pos, hist)|, StreamSaid(ps, hist))
  {
    hide At, Blocks, GoodStream, StreamBits;
    forall ps | Written(input, pos, hist, ps)
      ensures Blocks(input, pos, hist) == Done(pos + |StreamBits(ps, pos, hist)|, StreamSaid(ps, hist))
    {
      StreamRoundTrip(input, pos, hist, ps);
    }
    if Blocks(input, pos, hist).Done? {
      var ps := StreamThere(input, pos, hist);
      assert Written(input, pos, hist, ps);
    }
  }
}
