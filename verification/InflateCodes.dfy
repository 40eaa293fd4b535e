/**
  `inflate_codes` and `inflate_fast`: literals and length/distance pairs.

  Both are resumable.  What a state stands for is the ending that the rest of the
  block still leads to, `CodesState.Meaning`; every step keeps it.
 */
module InflateCodes {
  import opened Bits
  import opened Canonical
  import opened HuftTables
  import opened Deflate
  import opened ZStatus
  import R = BitReader
  import W = Window

  // ----- what an entry found stands for ---------------------------------------------

  lemma {:induction false} LengthRange(s: nat)
    requires 257 <= s < NO_LENGTH
    ensures LENGTH_EXTRA[s - 257] <= 5 && 3 <= LENGTH_BASE[s - 257]
    ensures LENGTH_BASE[s - 257] + Pow2(LENGTH_EXTRA[s - 257]) <= 259
  {
    SmallPowers();
  }

  lemma {:induction false} DistanceRange(s: nat)
    requires s < |DIST_BASE|
    ensures DIST_EXTRA[s] <= 13 && 1 <= DIST_BASE[s]
    ensures DIST_BASE[s] + Pow2(DIST_EXTRA[s]) <= W.WSIZE + 1
  {
    SmallPowers();
  }

  /** What a lookup from the root finds is the symbol that the reference reads. */
  lemma {:induction false} FoundSymbol(tbl: seq<Huft>, t: nat, need: nat, lens: seq<nat>, alpha: Alphabet, bits: seq<bool>)
    requires ValidAlphabet(alpha, |lens|) && Decodes(tbl, t, need, lens, alpha) && |bits| == BMAX
    ensures var f := Walk(tbl, t, need, bits);
            f.Entry? && match Symbol(lens, bits)
                        case Sym(s) => f == Entry(ExopOf(alpha, s), BaseOf(alpha, s), lens[s])
                        case NoSym => f.exop == INVALID && f.used == Greatest(lens)
  {
    assert DecodesBits(tbl, t, need, lens, alpha, bits);
    var f := Walk(tbl, t, need, bits);
    if Symbol(lens, bits).NoSym? {
      assert MaxLen(lens, f.used);
      assert f.used in lens && Greatest(lens) in lens;
    }
  }

  datatype Kind = Literal | Match | EndOfBlock | Error

  /** How LEN takes an operation byte that is no link. */
  function KindOf(exop: nat): (k: Kind) {
    if exop == 0 then Literal
    else if Has(exop, 16) then Match
    else if Has(exop, 32) then EndOfBlock
    else Error
  }

  lemma {:induction false} KindsAre()
    ensures KindOf(0) == Literal && KindOf(32 + 64) == EndOfBlock && KindOf(112 + 16 + 64) == KindOf(INVALID) == Error
  {
  }

  lemma {:induction false} KindOfSymbol(s: nat)
    requires s < 288
    ensures KindOf(ExopOf(LITERALS, s)) ==
              if s < END_OF_BLOCK then Literal else if s == END_OF_BLOCK then EndOfBlock
              else if s < NO_LENGTH then Match else Error
    ensures END_OF_BLOCK < s < NO_LENGTH ==> ExopOf(LITERALS, s) % 16 == LENGTH_EXTRA[s - 257] && BaseOf(LITERALS, s) == LENGTH_BASE[s - 257]
    ensures s < END_OF_BLOCK ==> BaseOf(LITERALS, s) == s
    ensures KindOf(INVALID) == Error
  {
    KindsAre();
    hide KindOf;
    if s > END_OF_BLOCK {
      var extra := LENGTH_EXTRA[s - 257];
      assert ExopOf(LITERALS, s) == extra + 16 + 64;
      if s < NO_LENGTH {
        LengthRange(s);
        MatchExop(extra);
      } else {
        assert extra == 112;
      }
    }
  }

  lemma {:induction false} MatchExop(extra: nat)
    requires extra <= 15
    ensures KindOf(extra + 16 + 64) == Match && Has(extra + 16 + 64, 16) && (extra + 16 + 64) % 16 == extra
  {
  }

  /** A literal/length entry, and what the reference decoder makes of the same bits. */
  lemma {:induction false} LiteralMeaning(tbl: seq<Huft>, t: nat, need: nat, ll: seq<nat>, dl: seq<nat>, input: seq<byte>, pos: nat, hist: seq<byte>, f: Found)
    requires |ll| <= 288 && ValidAlphabet(LITERALS, |ll|) && Decodes(tbl, t, need, ll, LITERALS)
    requires f == Walk(tbl, t, need, Peek(input, pos, BMAX)) && f.Entry? && pos + f.used <= 8 * |input|
    ensures match KindOf(f.exop)
            case Literal => f.base < 256 && Codes(input, pos, hist, ll, dl) == Codes(input, pos + f.used, hist + [f.base as byte], ll, dl)
            case Match => |ll| > 257 && f.exop % 16 <= 5 && 3 <= f.base && f.base + Pow2(f.exop % 16) <= 259
                          && Codes(input, pos, hist, ll, dl) == LengthExtra(input, pos + f.used, hist, ll, dl, f.base, f.exop % 16)
            case EndOfBlock => Codes(input, pos, hist, ll, dl) == Done(pos + f.used, hist)
            case Error => Codes(input, pos, hist, ll, dl) == Bad(hist)
  {
    hide Decodes, Walk, ExopOf, BaseOf, Has, KindOf, Pow2, Codes, LengthExtra, ReadSymbol;
    var bits := Peek(input, pos, BMAX);
    FoundSymbol(tbl, t, need, ll, LITERALS, bits);
    SymbolIsRead(input, pos, ll, f.used);
    match Symbol(ll, bits)
    case NoSym =>
      KindOfSymbol(0);
      CodesInvalid(input, pos, hist, ll, dl);
    case Sym(s) =>
      KindOfSymbol(s);
      CodesRead(input, pos, hist, ll, dl, s, f.used);
      if END_OF_BLOCK < s < NO_LENGTH {
        LengthRange(s);
      }
  }

  lemma {:induction false} SymbolIsRead(input: seq<byte>, pos: nat, lens: seq<nat>, used: nat)
    requires pos + used <= 8 * |input|
    requires match Symbol(lens, Peek(input, pos, BMAX)) case Sym(s) => used == lens[s] case NoSym => used == Greatest(lens)
    ensures ReadSymbol(input, pos, lens) ==
            match Symbol(lens, Peek(input, pos, BMAX)) case Sym(s) => Read(s, used) case NoSym => Invalid
  {
  }

  lemma {:induction false} CodesInvalid(input: seq<byte>, pos: nat, hist: seq<byte>, ll: seq<nat>, dl: seq<nat>)
    requires ReadSymbol(input, pos, ll) == Invalid
    ensures Codes(input, pos, hist, ll, dl) == Bad(hist)
  {
    hide ReadSymbol;
  }

  lemma {:induction false} CodesRead(input: seq<byte>, pos: nat, hist: seq<byte>, ll: seq<nat>, dl: seq<nat>, s: nat, used: nat)
    requires ReadSymbol(input, pos, ll) == Read(s, used)
    ensures Codes(input, pos, hist, ll, dl) ==
            if s < END_OF_BLOCK then Codes(input, pos + used, hist + [s as byte], ll, dl)
            else if s == END_OF_BLOCK then Done(pos + used, hist)
            else if s >= NO_LENGTH then Bad(hist)
            else LengthExtra(input, pos + used, hist, ll, dl, LENGTH_BASE[s - 257], LENGTH_EXTRA[s - 257])
  {
    hide ReadSymbol, LengthExtra;
  }

  lemma {:induction false} DistanceKind(s: nat)
    requires s < 30
    ensures Has(ExopOf(DISTANCES, s), 16) && ExopOf(DISTANCES, s) % 16 == DIST_EXTRA[s] && BaseOf(DISTANCES, s) == DIST_BASE[s]
    ensures !Has(INVALID, 16)
  {
    DistanceRange(s);
    MatchExop(DIST_EXTRA[s]);
  }

  lemma {:induction false} DistanceMeaning(tbl: seq<Huft>, t: nat, need: nat, ll: seq<nat>, dl: seq<nat>, input: seq<byte>, pos: nat, hist: seq<byte>, len: nat, f: Found)
    requires |dl| <= 30 && ValidAlphabet(DISTANCES, |dl|) && Decodes(tbl, t, need, dl, DISTANCES)
    requires f == Walk(tbl, t, need, Peek(input, pos, BMAX)) && f.Entry? && pos + f.used <= 8 * |input|
    ensures if Has(f.exop, 16) then
              && f.exop % 16 <= 13 && 1 <= f.base && f.base + Pow2(f.exop % 16) <= W.WSIZE + 1
              && Distance(input, pos, hist, ll, dl, len) == DistanceExtra(input, pos + f.used, hist, ll, dl, len, f.base, f.exop % 16)
            else Distance(input, pos, hist, ll, dl, len) == Bad(hist)
  {
    hide Decodes, Walk, ExopOf, BaseOf, Has, Pow2, Distance, DistanceExtra, ReadSymbol, Symbol;
    var bits := Peek(input, pos, BMAX);
    FoundSymbol(tbl, t, need, dl, DISTANCES, bits);
    SymbolIsRead(input, pos, dl, f.used);
    DistanceIs(input, pos, hist, ll, dl, len);
    match Symbol(dl, bits)
    case NoSym =>
      DistanceKind(0);
    case Sym(s) =>
      DistanceKind(s);
      DistanceRange(s);
  }

  lemma {:induction false} DistanceIs(input: seq<byte>, pos: nat, hist: seq<byte>, ll: seq<nat>, dl: seq<nat>, len: nat)
    requires |dl| <= 30
    ensures match ReadSymbol(input, pos, dl)
            case Truncated => Distance(input, pos, hist, ll, dl, len) == Short(hist)
            case Invalid => Distance(input, pos, hist, ll, dl, len) == Bad(hist)
            case Read(s, used) => s < 30 && Distance(input, pos, hist, ll, dl, len) == DistanceExtra(input, pos + used, hist, ll, dl, len, DIST_BASE[s], DIST_EXTRA[s])
  {
    hide DistanceExtra, ReadSymbol;
  }

  lemma {:induction false} LengthExtraIs(input: seq<byte>, pos: nat, hist: seq<byte>, ll: seq<nat>, dl: seq<nat>, base: nat, extra: nat, low: nat, pos': nat)
    requires low == Field(input, pos, extra) && pos' == pos + extra <= 8 * |input|
    ensures low < Pow2(extra)
    ensures LengthExtra(input, pos, hist, ll, dl, base, extra) == Distance(input, pos', hist, ll, dl, base + low)
  {
    hide Distance, Pow2;
  }

  lemma {:induction false} DistanceExtraIs(input: seq<byte>, pos: nat, hist: seq<byte>, ll: seq<nat>, dl: seq<nat>, len: nat, base: nat, extra: nat, low: nat, pos': nat)
    requires low == Field(input, pos, extra) && pos' == pos + extra <= 8 * |input| && 1 <= base
    requires base + Pow2(extra) <= |hist| + 1
    ensures 1 <= base + low <= |hist| && low < Pow2(extra)
    ensures DistanceExtra(input, pos, hist, ll, dl, len, base, extra) == Codes(input, pos', Copy(hist, base + low, len), ll, dl)
  {
    hide Codes, Pow2, Copy;
  }

  // ----- one table lookup ---------------------------------------------------------------

  /** After `used` bits of a symbol, the lookup that started at `t0` goes on in the table at `t`. */
  ghost predicate Midway(tbl: seq<Huft>, t0: nat, need0: nat, input: seq<byte>, pos: nat, used: nat, t: nat, need: nat) {
    && used <= BMAX && used <= pos && need <= need0
    && Walk(tbl, t0, need0, Peek(input, pos - used, BMAX)).Entry?
    && Walk(tbl, t0, need0, Peek(input, pos - used, BMAX)) == Dropped(Walk(tbl, t, need, Peek(input, pos, BMAX - used)), used)
  }

  lemma {:induction false} MidwayStart(tbl: seq<Huft>, t0: nat, need0: nat, input: seq<byte>, pos: nat)
    requires Walk(tbl, t0, need0, Peek(input, pos, BMAX)).Entry?
    ensures Midway(tbl, t0, need0, input, pos, 0, t0, need0)
  {
  }

  lemma {:induction false} PeekSlices(input: seq<byte>, pos: nat, n: nat, j: nat)
    requires j <= n
    ensures Peek(input, pos, n)[..j] == Peek(input, pos, j)
    ensures Peek(input, pos, n)[j..] == Peek(input, pos + j, n - j)
  {
    var s, t := Peek(input, pos, n)[j..], Peek(input, pos + j, n - j);
    forall i | 0 <= i < n - j
      ensures s[i] == t[i]
    {
      assert pos + (j + i) == pos + j + i;
    }
  }

  /** A lookup has dropped `used` bits and is at entry `i`: a final one, or one that leads on. */
  ghost predicate Reached(tbl: seq<Huft>, t0: nat, need0: nat, input: seq<byte>, pos: nat, used: nat, i: nat) {
    && i < |tbl|
    && var e := tbl[i];
       if IsLink(e) then Midway(tbl, t0, need0, input, pos, used, i + e.base, e.exop)
       else used <= pos && Walk(tbl, t0, need0, Peek(input, pos - used, BMAX)) == Entry(e.exop, e.base, used)
  }

  /** A lookup that ends somewhere stays within the table and within its bits. */
  lemma {:induction false} WalkReady(tbl: seq<Huft>, t: nat, need: nat, bits: seq<bool>)
    requires Walk(tbl, t, need, bits).Entry?
    ensures need <= |bits| && t + Lsb(bits[..need]) < |tbl|
    ensures var e := tbl[t + Lsb(bits[..need])]; 0 < e.bits <= need && (IsLink(e) ==> e.exop <= need)
  {
    hide IsLink, Lsb;
  }

  lemma {:induction false} MidwayStep(tbl: seq<Huft>, t0: nat, need0: nat, input: seq<byte>, pos: nat, used: nat, t: nat, need: nat) returns (i: nat)
    requires Midway(tbl, t0, need0, input, pos, used, t, need)
    ensures need <= need0 && used <= pos && used + need <= BMAX
    ensures i == t + Lsb(Peek(input, pos, need)) < |tbl| && 0 < tbl[i].bits <= need
    ensures Reached(tbl, t0, need0, input, pos + tbl[i].bits, used + tbl[i].bits, i)
  {
    hide Walk, IsLink, Lsb, Peek;
    var bits := Peek(input, pos, BMAX - used);
    WalkReady(tbl, t, need, bits);
    PeekSlices(input, pos, BMAX - used, need);
    i := t + Lsb(bits[..need]);
    var e := tbl[i];
    var pos', used' := pos + e.bits, used + e.bits;
    if IsLink(e) {
      PeekSlices(input, pos, BMAX - used, e.bits);
      MidwayLink(tbl, t0, need0, input, pos, used, t, need, e, pos', used', i + e.base);
    } else {
      WalkLeaf(tbl, t, need, bits);
      assert pos' - used' == pos - used;
    }
  }

  lemma {:induction false} MidwayLink(tbl: seq<Huft>, t0: nat, need0: nat, input: seq<byte>, pos: nat, used: nat, t: nat, need: nat, e: Huft, pos': nat, used': nat, t': nat)
    requires Midway(tbl, t0, need0, input, pos, used, t, need)
    requires pos' == pos + e.bits && used' == used + e.bits <= BMAX
    requires Peek(input, pos, BMAX - used)[e.bits..] == Peek(input, pos', BMAX - used')
    requires need <= BMAX - used && t + Lsb(Peek(input, pos, BMAX - used)[..need]) < |tbl|
    requires e == tbl[t + Lsb(Peek(input, pos, BMAX - used)[..need])] && t' == t + Lsb(Peek(input, pos, BMAX - used)[..need]) + e.base
    requires IsLink(e) && 0 < e.bits <= need && e.exop <= need
    ensures Midway(tbl, t0, need0, input, pos', used', t', e.exop)
  {
    hide Walk, Lsb, Peek;
    WalkLink(tbl, t, need, Peek(input, pos, BMAX - used), t', Peek(input, pos', BMAX - used'));
    assert pos' - used' == pos - used;
  }

  /** The table access and DUMPBITS of one lookup, with enough bits in the buffer. */
  method Probe(rd: R.BitReader, tbl: seq<Huft>, t: nat, need: nat, ghost t0: nat, ghost need0: nat, ghost used: nat)
    returns (i: nat)
    requires rd.Valid() && need <= rd.k
    requires Midway(tbl, t0, need0, rd.input, rd.Pos(), used, t, need)
    modifies rd`b, rd`k
    ensures rd.Valid() && i < |tbl| && 0 < tbl[i].bits <= need && used + need <= BMAX
    ensures rd.Pos() == old(rd.Pos()) + tbl[i].bits && rd.k == old(rd.k) - tbl[i].bits
    ensures Reached(tbl, t0, need0, rd.input, rd.Pos(), used + tbl[i].bits, i)
  {
    ghost var at := MidwayStep(tbl, t0, need0, rd.input, rd.Pos(), used, t, need);
    hide Midway, Reached, R.Holds;
    var low := rd.Low(need);
    i := t + low;
    rd.DumpBits(tbl[i].bits);
  }

  lemma {:induction false} MidwayBounds(tbl: seq<Huft>, t0: nat, need0: nat, input: seq<byte>, pos: nat, used: nat, t: nat, need: nat)
    requires Midway(tbl, t0, need0, input, pos, used, t, need)
    ensures need <= need0 && used <= pos && used + need <= BMAX
  {
    var i := MidwayStep(tbl, t0, need0, input, pos, used, t, need);
  }

  /** NEEDBITS, and then the lookup. */
  method LookUp(rd: R.BitReader, tbl: seq<Huft>, t: nat, need: nat, ghost t0: nat, ghost need0: nat, ghost used: nat)
    returns (ok: bool, i: nat)
    requires rd.Valid() && need <= 15
    requires Midway(tbl, t0, need0, rd.input, rd.Pos(), used, t, need)
    modifies rd`b, rd`k, rd`p, rd`n
    ensures rd.Valid() && rd.p + rd.n == old(rd.p + rd.n)
    ensures !ok ==> rd.n == 0 && rd.Pos() == old(rd.Pos()) && rd.k < need
    ensures ok ==> i < |tbl| && tbl[i].bits > 0 && rd.Pos() == old(rd.Pos()) + tbl[i].bits
    ensures ok ==> rd.k < (if old(rd.k) < need then need + 7 else old(rd.k))
    ensures ok ==> Reached(tbl, t0, need0, rd.input, rd.Pos(), used + tbl[i].bits, i)
  {
    hide Midway, Reached, R.Holds;
    i := 0;
    ok := rd.NeedBits(need);
    if ok {
      i := Probe(rd, tbl, t, need, t0, need0, used);
    }
  }

  /** A whole symbol: lookups through all tables, with at least `BMAX` bits in the buffer. */
  method LookUpSymbol(rd: R.BitReader, tbl: seq<Huft>, t: nat, need: nat) returns (i: nat, ghost used: nat)
    requires rd.Valid() && rd.k >= BMAX
    requires Midway(tbl, t, need, rd.input, rd.Pos(), 0, t, need)
    modifies rd`b, rd`k
    ensures rd.Valid() && 0 < used <= BMAX && i < |tbl|
    ensures rd.Pos() == old(rd.Pos()) + used && rd.k == old(rd.k) - used
    ensures Reached(tbl, t, need, rd.input, rd.Pos(), used, i) && !IsLink(tbl[i])
  {
    hide Midway, R.Holds, IsLink, Walk;
    MidwayBounds(tbl, t, need, rd.input, rd.Pos(), 0, t, need);
    i := Probe(rd, tbl, t, need, t, need, 0);
    used := tbl[i].bits;
    while IsLink(tbl[i])
      invariant rd.Valid() && i < |tbl| && 0 < used <= BMAX
      invariant rd.Pos() == old(rd.Pos()) + used && rd.k == old(rd.k) - used
      invariant Reached(tbl, t, need, rd.input, rd.Pos(), used, i)
      decreases BMAX - used
    {
      var at, e := i + tbl[i].base, tbl[i].exop;
      MidwayBounds(tbl, t, need, rd.input, rd.Pos(), used, at, e);
      i := Probe(rd, tbl, at, e, t, need, used);
      used := used + tbl[i].bits;
    }
  }

  // ----- the resumable machine ----------------------------------------------------------

  datatype Mode = Start | Len | LenExt | Dist | DistExt | Copying | Lit | Wash | End | BadCode

  /** The tables of a block, and the code lengths they were made from. */
  datatype Tables = Tables(tbl: seq<Huft>, lbits: nat, dbits: nat, ltree: nat, dtree: nat, ll: seq<nat>, dl: seq<nat>)

  ghost predicate TablesOK(t: Tables) {
    && |t.ll| <= 288 && |t.dl| <= 30 && t.lbits <= 9 && t.dbits <= 9
    && ValidAlphabet(LITERALS, |t.ll|) && ValidAlphabet(DISTANCES, |t.dl|)
    && Decodes(t.tbl, t.ltree, t.lbits, t.ll, LITERALS)
    && (|t.ll| > 257 ==> Decodes(t.tbl, t.dtree, t.dbits, t.dl, DISTANCES))
  }

  lemma {:induction false} LengthLookup(t: Tables, input: seq<byte>, pos: nat)
    requires TablesOK(t)
    ensures Midway(t.tbl, t.ltree, t.lbits, input, pos, 0, t.ltree, t.lbits)
  {
    FoundSymbol(t.tbl, t.ltree, t.lbits, t.ll, LITERALS, Peek(input, pos, BMAX));
    MidwayStart(t.tbl, t.ltree, t.lbits, input, pos);
  }

  lemma {:induction false} DistanceLookup(t: Tables, input: seq<byte>, pos: nat)
    requires TablesOK(t) && |t.ll| > 257
    ensures Midway(t.tbl, t.dtree, t.dbits, input, pos, 0, t.dtree, t.dbits)
  {
    FoundSymbol(t.tbl, t.dtree, t.dbits, t.dl, DISTANCES, Peek(input, pos, BMAX));
    MidwayStart(t.tbl, t.dtree, t.dbits, input, pos);
  }

  /** What a final literal/length entry means, `used` bits after the symbol began. */
  lemma {:induction false} LiteralReached(t: Tables, input: seq<byte>, pos: nat, hist: seq<byte>, used: nat, i: nat)
    requires TablesOK(t) && Reached(t.tbl, t.ltree, t.lbits, input, pos, used, i) && !IsLink(t.tbl[i]) && pos <= 8 * |input|
    ensures used <= pos
    ensures var e, now := t.tbl[i], Codes(input, pos - used, hist, t.ll, t.dl);
            match KindOf(e.exop)
            case Literal => e.base < 256 && now == Codes(input, pos, hist + [e.base as byte], t.ll, t.dl)
            case Match => |t.ll| > 257 && e.exop % 16 <= 5 && 3 <= e.base && e.base + Pow2(e.exop % 16) <= 259
                          && now == LengthExtra(input, pos, hist, t.ll, t.dl, e.base, e.exop % 16)
            case EndOfBlock => now == Done(pos, hist)
            case Error => now == Bad(hist)
  {
    hide Decodes, Codes, LengthExtra, IsLink, KindOf;
    var e := t.tbl[i];
    LiteralMeaning(t.tbl, t.ltree, t.lbits, t.ll, t.dl, input, pos - used, hist, Entry(e.exop, e.base, used));
    assert pos - used + used == pos;
  }

  lemma {:induction false} DistanceReached(t: Tables, input: seq<byte>, pos: nat, hist: seq<byte>, len: nat, used: nat, i: nat)
    requires TablesOK(t) && |t.ll| > 257
    requires Reached(t.tbl, t.dtree, t.dbits, input, pos, used, i) && !IsLink(t.tbl[i]) && pos <= 8 * |input|
    ensures used <= pos
    ensures var e, now := t.tbl[i], Distance(input, pos - used, hist, t.ll, t.dl, len);
            if Has(e.exop, 16) then
              && e.exop % 16 <= 13 && 1 <= e.base && e.base + Pow2(e.exop % 16) <= W.WSIZE + 1
              && now == DistanceExtra(input, pos, hist, t.ll, t.dl, len, e.base, e.exop % 16)
            else now == Bad(hist)
  {
    hide Decodes, Distance, DistanceExtra, IsLink, Has;
    var e := t.tbl[i];
    DistanceMeaning(t.tbl, t.dtree, t.dbits, t.ll, t.dl, input, pos - used, hist, len, Entry(e.exop, e.base, used));
    assert pos - used + used == pos;
  }

  // ----- the fast path ---------------------------------------------------------------------

  /** Longest string, and the input bytes one round of the fast loop may use. */
  const LONGEST: nat := 258
  const FAST_INPUT: nat := 10

  /** The distance of a pair, its extra bits, and the copy; `len` is known. */
  method FastDistance(t: Tables, rd: R.BitReader, win: W.Window, len: nat) returns (ok: bool)
    requires TablesOK(t) && |t.ll| > 257 && 3 <= len <= win.room
    requires rd.Valid() && win.Valid() && rd.k <= 27 && rd.n >= 4
    modifies rd`b, rd`k, rd`p, rd`n, win, win.buf
    ensures rd.Valid() && win.Valid() && rd.k <= 27 && rd.p + rd.n == old(rd.p + rd.n) && rd.n <= old(rd.n) && rd.Pos() > old(rd.Pos())
    ensures win.output == old(win.output)
    ensures var was := Distance(rd.input, old(rd.Pos()), old(win.hist), t.ll, t.dl, len);
            if ok then Codes(rd.input, rd.Pos(), win.hist, t.ll, t.dl) == was
            else win.hist == old(win.hist) && was == Bad(win.hist)
  {
    hide TablesOK, R.Holds, W.Mirrors, Codes, Distance, DistanceExtra, Has, IsLink, Reached, Midway, Pow2;
    var enough := rd.NeedBits(15);
    DistanceLookup(t, rd.input, rd.Pos());
    ghost var pos := rd.Pos();
    ghost var used;
    var i;
    i, used := LookUpSymbol(rd, t.tbl, t.dtree, t.dbits);
    DistanceReached(t, rd.input, rd.Pos(), win.hist, len, used, i);
    assert rd.Pos() - used == pos;
    var e := t.tbl[i];
    ok := Has(e.exop, 16);
    if ok {
      FastCopy(t, rd, win, len, e.base, e.exop % 16);
    }
  }

  /** The extra bits of a distance, and the copy. */
  method FastCopy(t: Tables, rd: R.BitReader, win: W.Window, len: nat, base: nat, extra: nat)
    requires 3 <= len <= win.room && extra <= 13 && 1 <= base && base + Pow2(extra) <= W.WSIZE + 1
    requires rd.Valid() && win.Valid() && rd.k <= 27 && rd.n >= 2
    modifies rd`b, rd`k, rd`p, rd`n, win, win.buf
    ensures rd.Valid() && win.Valid() && rd.k <= 27 && rd.p + rd.n == old(rd.p + rd.n) && rd.n <= old(rd.n) && rd.Pos() >= old(rd.Pos())
    ensures win.output == old(win.output)
    ensures Codes(rd.input, rd.Pos(), win.hist, t.ll, t.dl) ==
              DistanceExtra(rd.input, old(rd.Pos()), old(win.hist), t.ll, t.dl, len, base, extra)
  {
    hide R.Holds, W.Mirrors, Codes, DistanceExtra, Copy, Pow2;
    var enough := rd.NeedBits(extra);
    var low := rd.Low(extra);
    ghost var pos := rd.Pos();
    rd.DumpBits(extra);
    DistanceExtraIs(rd.input, pos, win.hist, t.ll, t.dl, len, base, extra, low, rd.Pos());
    win.CopyFast(base + low, len);
  }

  /** The extra bits of a length, and then the distance. */
  method FastPair(t: Tables, rd: R.BitReader, win: W.Window, base: nat, extra: nat) returns (ok: bool)
    requires TablesOK(t) && |t.ll| > 257 && extra <= 5 && 3 <= base && base + Pow2(extra) <= LONGEST + 1 && win.room >= LONGEST
    requires rd.Valid() && win.Valid() && extra <= rd.k <= 27 && rd.n >= 4
    modifies rd`b, rd`k, rd`p, rd`n, win, win.buf
    ensures rd.Valid() && win.Valid() && rd.k <= 27 && rd.p + rd.n == old(rd.p + rd.n) && rd.n <= old(rd.n) && rd.Pos() > old(rd.Pos())
    ensures win.output == old(win.output)
    ensures var was := LengthExtra(rd.input, old(rd.Pos()), old(win.hist), t.ll, t.dl, base, extra);
            if ok then Codes(rd.input, rd.Pos(), win.hist, t.ll, t.dl) == was
            else win.hist == old(win.hist) && was == Bad(win.hist)
  {
    hide TablesOK, R.Holds, W.Mirrors, Codes, Distance, LengthExtra, Pow2;
    var low := rd.Low(extra);
    ghost var pos := rd.Pos();
    rd.DumpBits(extra);
    LengthExtraIs(rd.input, pos, win.hist, t.ll, t.dl, base, extra, low, rd.Pos());
    ok := FastDistance(t, rd, win, base + low);
  }

  /** One round of the fast loop: a literal, a length/distance pair, or the end of the block. */
  method FastRound(t: Tables, rd: R.BitReader, win: W.Window) returns (r: Status)
    requires TablesOK(t) && rd.Valid() && win.Valid() && rd.k <= 27
    requires win.room >= LONGEST && rd.n >= FAST_INPUT
    modifies rd`b, rd`k, rd`p, rd`n, win, win.buf
    ensures rd.Valid() && win.Valid() && rd.k <= 27 && rd.p + rd.n == old(rd.p + rd.n) && rd.n <= old(rd.n) && rd.Pos() > old(rd.Pos())
    ensures win.output == old(win.output)
    ensures r == ZOk || r == ZStreamEnd || r == ZDataError
    ensures var was := Codes(rd.input, old(rd.Pos()), old(win.hist), t.ll, t.dl);
            match r
            case ZOk => Codes(rd.input, rd.Pos(), win.hist, t.ll, t.dl) == was
            case ZStreamEnd => was == Done(rd.Pos(), win.hist)
            case _ => was == Bad(win.hist)
  {
    hide TablesOK, R.Holds, W.Mirrors, Codes, LengthExtra, IsLink, Reached, Midway, Pow2;
    var enough := rd.NeedBits(20);
    LengthLookup(t, rd.input, rd.Pos());
    ghost var pos := rd.Pos();
    ghost var used;
    var i;
    i, used := LookUpSymbol(rd, t.tbl, t.ltree, t.lbits);
    LiteralReached(t, rd.input, rd.Pos(), win.hist, used, i);
    assert rd.Pos() - used == pos;
    var e := t.tbl[i];
    match KindOf(e.exop) {
      case Literal =>
        win.OutByte(e.base as byte);
        r := ZOk;
      case Match =>
        var ok := FastPair(t, rd, win, e.base, e.exop % 16);
        r := if ok then ZOk else ZDataError;
      case EndOfBlock =>
        r := ZStreamEnd;
      case Error =>
        r := ZDataError;
    }
  }

  /** `inflate_fast`: rounds while input and window allow, then whole unused bytes go back. */
  method Fast(t: Tables, rd: R.BitReader, win: W.Window) returns (r: Status)
    requires TablesOK(t) && rd.Valid() && win.Valid() && rd.k <= 15
    requires win.room >= LONGEST && rd.n >= FAST_INPUT
    modifies rd, win, win.buf
    ensures rd.Valid() && win.Valid() && rd.k <= 15 && rd.Pos() > old(rd.Pos())
    ensures win.output == old(win.output)
    ensures r == ZOk || r == ZStreamEnd || r == ZDataError
    ensures var was := Codes(rd.input, old(rd.Pos()), old(win.hist), t.ll, t.dl);
            match r
            case ZOk => Codes(rd.input, rd.Pos(), win.hist, t.ll, t.dl) == was
            case ZStreamEnd => was == Done(rd.Pos(), win.hist)
            case _ => was == Bad(win.hist)
  {
    hide TablesOK, R.Holds, W.Mirrors, Codes;
    var n0 := rd.n;
    r := FastRound(t, rd, win);
    while r == ZOk && win.room >= LONGEST && rd.n >= FAST_INPUT
      invariant rd.Valid() && win.Valid() && rd.k <= 27 && rd.p + rd.n == old(rd.p + rd.n) && rd.n <= old(rd.n) && rd.Pos() > old(rd.Pos())
      invariant win.output == old(win.output)
      invariant r == ZOk || r == ZStreamEnd || r == ZDataError
      invariant var was := Codes(rd.input, old(rd.Pos()), old(win.hist), t.ll, t.dl);
                match r
                case ZOk => Codes(rd.input, rd.Pos(), win.hist, t.ll, t.dl) == was
                case ZStreamEnd => was == Done(rd.Pos(), win.hist)
                case _ => was == Bad(win.hist)
      decreases 8 * |rd.input| - rd.Pos()
    {
      r := FastRound(t, rd, win);
    }
    rd.Ungrab(n0 - rd.n);
  }

  class CodesState {
    const t: Tables
    var mode: Mode
    var len: nat
    var tree: nat
    var need: nat
    var lit: byte
    var get: nat
    var dist: nat
    /** Bits of the current symbol already dropped. */
    ghost var used: nat

    /** What holds in each mode, at bit position `pos` of the input. */
    ghost predicate Here(input: seq<byte>, pos: nat)
      reads this
    {
      match mode
      case Start => true
      case Len => need <= 9 && Midway(t.tbl, t.ltree, t.lbits, input, pos, used, tree, need)
      case LenExt => |t.ll| > 257 && get <= 5 && 3 <= len && len + Pow2(get) <= 259
      case Dist => need <= 9 && |t.ll| > 257 && 3 <= len <= 258 && Midway(t.tbl, t.dtree, t.dbits, input, pos, used, tree, need)
      case DistExt => 3 <= len <= 258 && get <= 13 && 1 <= dist && dist + Pow2(get) <= W.WSIZE + 1
      case Copying => 1 <= dist <= W.WSIZE
      case Lit => true
      case Wash => true
      case End => true
      case BadCode => true
    }

    /** How the block ends from here on. */
    ghost function Meaning(input: seq<byte>, pos: nat, hist: seq<byte>): (r: Ending)
      requires Here(input, pos) && |hist| >= W.WSIZE
      reads this
    {
      match mode
      case Start => Codes(input, pos, hist, t.ll, t.dl)
      case Len => Codes(input, pos - used, hist, t.ll, t.dl)
      case LenExt => LengthExtra(input, pos, hist, t.ll, t.dl, len, get)
      case Dist => Distance(input, pos - used, hist, t.ll, t.dl, len)
      case DistExt => DistanceExtra(input, pos, hist, t.ll, t.dl, len, dist, get)
      case Copying => Codes(input, pos, Copy(hist, dist, len), t.ll, t.dl)
      case Lit => Codes(input, pos, hist + [lit], t.ll, t.dl)
      case Wash => Done(pos, hist)
      case End => Done(pos, hist)
      case BadCode => Bad(hist)
    }

    /** The output so far stays, and the end is not behind, save for the bits of a symbol half looked up. */
    lemma EndsAhead(input: seq<byte>, pos: nat, hist: seq<byte>)
      requires Here(input, pos) && |hist| >= W.WSIZE
      ensures var e := Meaning(input, pos, hist); hist <= e.hist && (e.Done? ==> pos <= e.pos + BMAX)
    {
      hide Codes, LengthExtra, Distance, DistanceExtra, Copy;
    }

    ghost predicate Valid(rd: R.BitReader, win: W.Window)
      reads this, rd, win, win.buf
    {
      TablesOK(t) && rd.Valid() && rd.k <= (if mode == End then 7 else 15) && win.Valid() && Here(rd.input, rd.Pos())
    }

    ghost function Rest(rd: R.BitReader, win: W.Window): (r: Ending)
      requires Valid(rd, win)
      reads this, rd, win, win.buf
    {
      Meaning(rd.input, rd.Pos(), win.hist)
    }

    /** `inflate_codes_new`. */
    constructor (t: Tables)
      ensures this.t == t && mode == Start
    {
      this.t := t;
      mode := Start;
      len, tree, need, lit, get, dist := 0, 0, 0, 0, 0, 0;
    }

    // ----- steps that read ---------------------------------------------------------------

    /** LEN. */
    method StepLen(rd: R.BitReader, r: Status, ghost hist: seq<byte>) returns (go: bool, r': Status)
      requires TablesOK(t) && rd.Valid() && rd.k <= 15 && |hist| >= W.WSIZE
      requires mode == Len && Here(rd.input, rd.Pos())
      modifies this, rd`b, rd`k, rd`p, rd`n
      ensures rd.Valid() && rd.k <= 15 && Here(rd.input, rd.Pos())
      ensures Meaning(rd.input, rd.Pos(), hist) == old(Meaning(rd.input, rd.Pos(), hist))
      ensures if go then rd.Pos() > old(rd.Pos()) else rd.Pos() >= old(rd.Pos())
      ensures !go ==> (mode == BadCode && r' == ZDataError) || (mode == Len && rd.n == 0)
      ensures go ==> mode == Len || mode == Lit || mode == LenExt || mode == Wash
      ensures mode != BadCode ==> r' == r || r' == ZOk
    {
      hide TablesOK, Midway, R.Holds, Codes, LengthExtra, IsLink, Reached;
      Lookahead(t);
      var n0 := rd.n;
      var ok, i := LookUp(rd, t.tbl, tree, need, t.ltree, t.lbits, used);
      r' := if rd.n < n0 then ZOk else r;
      if !ok {
        return false, r';
      }
      go := true;
      var e := t.tbl[i];
      used := used + e.bits;
      if IsLink(e) {
        ReachedLink(t.tbl, t.ltree, t.lbits, rd.input, rd.Pos(), used, i);
        tree, need := i + e.base, e.exop;
        return;
      }
      go, r' := EndLookup(i, r', rd.input, rd.Pos(), hist);
    }

    /** LEN, with the entry of a symbol found. */
    method EndLookup(i: nat, r: Status, ghost input: seq<byte>, ghost pos: nat, ghost hist: seq<byte>) returns (go: bool, r': Status)
      requires TablesOK(t) && i < |t.tbl| && Reached(t.tbl, t.ltree, t.lbits, input, pos, used, i) && !IsLink(t.tbl[i])
      requires pos <= 8 * |input| && |hist| >= W.WSIZE
      modifies this`lit, this`mode, this`get, this`len
      ensures used <= pos && Here(input, pos) && Meaning(input, pos, hist) == Codes(input, pos - used, hist, t.ll, t.dl)
      ensures if go then r' == r && (mode == Lit || mode == LenExt || mode == Wash) else mode == BadCode && r' == ZDataError
    {
      hide TablesOK, Midway, Reached, Codes, LengthExtra, IsLink, Pow2;
      LiteralReached(t, input, pos, hist, used, i);
      var e := t.tbl[i];
      go, r' := true, r;
      match KindOf(e.exop) {
        case Literal => lit, mode := e.base as byte, Lit;
        case Match => get, len, mode := e.exop % 16, e.base, LenExt;
        case EndOfBlock => mode := Wash;
        case Error => mode, go, r' := BadCode, false, ZDataError;
      }
    }

    /** LENEXT: the extra bits of the length. */
    method StepLenExt(rd: R.BitReader, r: Status, ghost hist: seq<byte>) returns (go: bool, r': Status)
      requires TablesOK(t) && rd.Valid() && rd.k <= 15 && |hist| >= W.WSIZE
      requires mode == LenExt && Here(rd.input, rd.Pos())
      modifies this, rd`b, rd`k, rd`p, rd`n
      ensures rd.Valid() && rd.k <= 15 && Here(rd.input, rd.Pos())
      ensures Meaning(rd.input, rd.Pos(), hist) == old(Meaning(rd.input, rd.Pos(), hist))
      ensures r' == r || r' == ZOk
      ensures go ==> rd.Pos() >= old(rd.Pos()) && mode == Dist
      ensures !go ==> mode == LenExt && rd.n == 0 && rd.Pos() == old(rd.Pos())
    {
      hide TablesOK, Midway, R.Holds, Distance, LengthExtra, Pow2, Field, Peek;
      var n0 := rd.n;
      go := rd.NeedBits(get);
      r' := if rd.n < n0 then ZOk else r;
      if !go {
        return;
      }
      var extra := rd.Low(get);
      ghost var pos := rd.Pos();
      rd.DumpBits(get);
      LengthExtraIs(rd.input, pos, hist, t.ll, t.dl, len, get, extra, rd.Pos());
      BeginDistance(len + extra, rd.input, rd.Pos(), hist);
    }

    /** The length is known. */
    method BeginDistance(n: nat, ghost input: seq<byte>, ghost pos: nat, ghost hist: seq<byte>)
      requires TablesOK(t) && |t.ll| > 257 && 3 <= n <= 258 && |hist| >= W.WSIZE
      modifies this`len, this`need, this`tree, this`used, this`mode
      ensures mode == Dist && Here(input, pos) && Meaning(input, pos, hist) == Distance(input, pos, hist, t.ll, t.dl, n)
    {
      hide TablesOK, Midway, Distance;
      Lookahead(t);
      DistanceLookup(t, input, pos);
      len, need, tree, used, mode := n, t.dbits, t.dtree, 0, Dist;
    }

    /** DIST. */
    method StepDist(rd: R.BitReader, r: Status, ghost hist: seq<byte>) returns (go: bool, r': Status)
      requires TablesOK(t) && rd.Valid() && rd.k <= 15 && |hist| >= W.WSIZE
      requires mode == Dist && Here(rd.input, rd.Pos())
      modifies this, rd`b, rd`k, rd`p, rd`n
      ensures rd.Valid() && rd.k <= 15 && Here(rd.input, rd.Pos())
      ensures Meaning(rd.input, rd.Pos(), hist) == old(Meaning(rd.input, rd.Pos(), hist))
      ensures go ==> rd.Pos() > old(rd.Pos()) && (mode == Dist || mode == DistExt)
      ensures !go ==> (mode == BadCode && r' == ZDataError) || (mode == Dist && rd.n == 0)
      ensures !go ==> rd.Pos() >= old(rd.Pos())
      ensures mode != BadCode ==> r' == r || r' == ZOk
    {
      hide TablesOK, Midway, Reached, R.Holds, Distance, DistanceExtra, IsLink, Has;
      Lookahead(t);
      var n0 := rd.n;
      var ok, i := LookUp(rd, t.tbl, tree, need, t.dtree, t.dbits, used);
      r' := if rd.n < n0 then ZOk else r;
      if !ok {
        return false, r';
      }
      go := true;
      var e := t.tbl[i];
      used := used + e.bits;
      if IsLink(e) {
        ReachedLink(t.tbl, t.dtree, t.dbits, rd.input, rd.Pos(), used, i);
        tree, need := i + e.base, e.exop;
        return;
      }
      go, r' := EndDistance(i, r', rd.input, rd.Pos(), hist);
    }

    /** DIST, with the entry of a symbol found. */
    method EndDistance(i: nat, r: Status, ghost input: seq<byte>, ghost pos: nat, ghost hist: seq<byte>) returns (go: bool, r': Status)
      requires TablesOK(t) && |t.ll| > 257 && 3 <= len <= 258 && i < |t.tbl| && !IsLink(t.tbl[i])
      requires Reached(t.tbl, t.dtree, t.dbits, input, pos, used, i) && pos <= 8 * |input| && |hist| >= W.WSIZE
      modifies this`mode, this`get, this`dist
      ensures used <= pos && Here(input, pos) && Meaning(input, pos, hist) == Distance(input, pos - used, hist, t.ll, t.dl, len)
      ensures if go then r' == r && mode == DistExt else mode == BadCode && r' == ZDataError
    {
      hide TablesOK, Midway, Reached, Distance, DistanceExtra, IsLink, Has, Pow2;
      DistanceReached(t, input, pos, hist, len, used, i);
      var e := t.tbl[i];
      go, r' := true, r;
      if Has(e.exop, 16) {
        get, dist, mode := e.exop % 16, e.base, DistExt;
      } else {
        mode, go, r' := BadCode, false, ZDataError;
      }
    }

    /** DISTEXT: the extra bits of the distance. */
    method StepDistExt(rd: R.BitReader, r: Status, ghost hist: seq<byte>) returns (go: bool, r': Status)
      requires TablesOK(t) && rd.Valid() && rd.k <= 15 && |hist| >= W.WSIZE
      requires mode == DistExt && Here(rd.input, rd.Pos())
      modifies this, rd`b, rd`k, rd`p, rd`n
      ensures rd.Valid() && rd.k <= 15 && Here(rd.input, rd.Pos())
      ensures Meaning(rd.input, rd.Pos(), hist) == old(Meaning(rd.input, rd.Pos(), hist))
      ensures r' == r || r' == ZOk
      ensures go ==> rd.Pos() >= old(rd.Pos()) && mode == Copying
      ensures !go ==> mode == DistExt && rd.n == 0 && rd.Pos() == old(rd.Pos())
    {
      hide TablesOK, R.Holds, Codes, DistanceExtra, Copy, Pow2;
      var n0 := rd.n;
      go := rd.NeedBits(get);
      r' := if rd.n < n0 then ZOk else r;
      if !go {
        return;
      }
      var extra := rd.Low(get);
      ghost var pos := rd.Pos();
      rd.DumpBits(get);
      DistanceExtraIs(rd.input, pos, hist, t.ll, t.dl, len, dist, get, extra, rd.Pos());
      dist := dist + extra;
      mode := Copying;
    }

    // ----- steps that write -------------------------------------------------------------------

    /** COPY, as far as the output allows. */
    method StepCopy(win: W.Window, r: Status, ghost input: seq<byte>, ghost pos: nat) returns (go: bool, r': Status)
      requires TablesOK(t) && win.Valid() && mode == Copying && Here(input, pos)
      modifies this, win, win.buf
      ensures win.Valid() && Here(input, pos) && old(win.output) <= win.output
      ensures Meaning(input, pos, win.hist) == old(Meaning(input, pos, win.hist))
      ensures go ==> mode == Start
      ensures !go ==> mode == Copying && win.availOut == 0
      ensures r' == r || r' == ZOk
    {
      hide TablesOK, Codes, W.Mirrors;
      len, r' := win.CopyString(dist, len, r);
      go := len == 0;
      if go {
        mode := Start;
      }
    }

    /** LIT: writes the literal, if the output allows. */
    method StepLit(win: W.Window, r: Status, ghost input: seq<byte>, ghost pos: nat) returns (go: bool, r': Status)
      requires TablesOK(t) && win.Valid() && mode == Lit && Here(input, pos)
      modifies this, win, win.buf
      ensures win.Valid() && Here(input, pos) && old(win.output) <= win.output
      ensures Meaning(input, pos, win.hist) == old(Meaning(input, pos, win.hist))
      ensures go ==> mode == Start
      ensures !go ==> mode == Lit && win.availOut == 0
      ensures r' == r || r' == ZOk
    {
      hide TablesOK, Codes, W.Mirrors;
      go, r' := win.NeedOut(r);
      if go {
        win.OutByte(lit);
        mode := Start;
      }
    }

    /** WASH: hands back an unused byte and drains the window. */
    method StepWash(rd: R.BitReader, win: W.Window, r: Status) returns (go: bool, r': Status)
      requires rd.Valid() && rd.k <= 15 && win.Valid() && mode == Wash
      modifies this, rd, win
      ensures rd.Valid() && rd.k <= 7 && rd.Pos() == old(rd.Pos())
      ensures win.Valid() && win.hist == old(win.hist) && old(win.output) <= win.output
      ensures go ==> mode == End && |win.hist| == W.WSIZE + |win.output|
      ensures !go ==> mode == Wash && win.availOut == 0
      ensures r' == r || r' == ZOk
    {
      hide R.Holds, W.Mirrors;
      if rd.k > 7 {
        rd.Ungrab(1);
      }
      r' := win.Flush(r);
      go := win.read == win.write;
      if go {
        mode := End;
      }
    }

    /** START: the fast path if there is enough input and room, then a symbol at a time. */
    method StepStart(rd: R.BitReader, win: W.Window, r: Status) returns (r': Status)
      requires Valid(rd, win) && mode == Start
      modifies this, rd, win, win.buf
      ensures Valid(rd, win) && win.output == old(win.output)
      ensures Rest(rd, win) == old(Rest(rd, win))
      ensures (mode == Len && rd.Pos() >= old(rd.Pos())) || ((mode == Wash || mode == BadCode) && rd.Pos() > old(rd.Pos()))
      ensures mode == Len ==> r' == r || r' == ZOk
      ensures mode == Wash ==> r' == ZStreamEnd
      ensures mode == BadCode ==> r' == ZDataError
    {
      hide TablesOK, R.Holds, W.Mirrors, Codes, Midway;
      Lookahead(t);
      r' := r;
      if win.room >= LONGEST && rd.n >= FAST_INPUT {
        r' := Fast(t, rd, win);
        if r' != ZOk {
          mode := if r' == ZStreamEnd then Wash else BadCode;
          return;
        }
      }
      LengthLookup(t, rd.input, rd.Pos());
      need, tree, used, mode := t.lbits, t.ltree, 0, Len;
    }

    /** Modes are numbered so that every step either reads a bit or goes down. */
    ghost function Rank(): (n: nat)
      reads this
    {
      match mode
      case LenExt => 6
      case Dist => 5
      case DistExt => 5
      case Copying => 4
      case Lit => 4
      case Start => 3
      case Len => 2
      case Wash => 1
      case End => 0
      case BadCode => 0
    }

    /** One turn of the switch; `go` is false when it leaves. */
    method Step(rd: R.BitReader, win: W.Window, r: Status) returns (go: bool, r': Status)
      requires Valid(rd, win) && Pending(r)
      modifies this, rd, win, win.buf
      ensures Valid(rd, win) && old(win.output) <= win.output
      ensures Rest(rd, win) == old(Rest(rd, win))
      ensures rd.Pos() >= old(rd.Pos())
      ensures go ==> (rd.Pos() > old(rd.Pos()) || Rank() < old(Rank())) && Pending(r')
      ensures !go ==> Rank() <= old(Rank()) && Left(rd, win, r')
    {
      hide TablesOK, R.Holds, W.Mirrors, Codes, Midway, LengthExtra, Distance, DistanceExtra, Copy, Pow2;
      match mode {
        case Start => r' := StepStart(rd, win, r); go := true;
        case Len => go, r' := StepLen(rd, r, win.hist);
        case LenExt => go, r' := StepLenExt(rd, r, win.hist);
        case Dist => go, r' := StepDist(rd, r, win.hist);
        case DistExt => go, r' := StepDistExt(rd, r, win.hist);
        case Copying => go, r' := StepCopy(win, r, rd.input, rd.Pos());
        case Lit => go, r' := StepLit(win, r, rd.input, rd.Pos());
        case Wash =>
          go, r' := StepWash(rd, win, r);
          if go {
            go, r' := false, ZStreamEnd;
          }
        case End => go, r' := false, ZStreamEnd;
        case BadCode => go, r' := false, ZDataError;
      }
    }

    /** The status while the switch goes round: a block end found by the fast path is already reported in WASH. */
    ghost predicate Pending(r: Status)
      reads this
    {
      match r
      case ZOk => true
      case ZBufError => true
      case ZStreamEnd => mode == Wash || mode == End
      case ZDataError => mode == BadCode
      case ZMemError => false
    }

    /** Why it left: at the end of the block, on bad data, or for want of input or of output space. */
    ghost predicate Left(rd: R.BitReader, win: W.Window, r: Status)
      reads this, rd, win
    {
      match r
      case ZStreamEnd => (mode == Wash || mode == End) && rd.k <= 7
      case ZDataError => mode == BadCode
      case ZMemError => false
      case _ => mode != End && mode != BadCode && (rd.n == 0 || win.availOut == 0)
    }

    /**
      `inflate_codes`: goes on until the block ends, the data is bad, or input or output space runs
      out.  What the rest of the block leads to is the same before and after, however it stops.
     */
    method Run(rd: R.BitReader, win: W.Window, r: Status) returns (r': Status)
      requires Valid(rd, win) && Pending(r)
      modifies this, rd, win, win.buf
      ensures Valid(rd, win) && old(win.output) <= win.output
      ensures Rest(rd, win) == old(Rest(rd, win))
      ensures rd.Pos() >= old(rd.Pos())
      ensures Left(rd, win, r')
    {
      hide Rest, TablesOK, R.Holds, W.Mirrors, Codes, Here;
      r' := r;
      var go := true;
      while go
        invariant Valid(rd, win) && old(win.output) <= win.output
        invariant Rest(rd, win) == old(Rest(rd, win))
        invariant rd.Pos() >= old(rd.Pos())
        invariant if go then Pending(r') else Left(rd, win, r')
        decreases 8 * |rd.input| - rd.Pos(), Rank(), go
      {
        go, r' := Step(rd, win, r');
      }
      r' := Leave(rd, win, r');
    }

    /** LEAVE. */
    method Leave(rd: R.BitReader, win: W.Window, r: Status) returns (r': Status)
      requires Valid(rd, win) && Left(rd, win, r)
      modifies win
      ensures Valid(rd, win) && Left(rd, win, r') && old(win.output) <= win.output
      ensures Rest(rd, win) == old(Rest(rd, win))
    {
      hide TablesOK, R.Holds, W.Mirrors, Codes, Here;
      r' := win.Flush(r);
    }
  }

  lemma {:induction false} ReachedLink(tbl: seq<Huft>, t0: nat, need0: nat, input: seq<byte>, pos: nat, used: nat, i: nat)
    requires Reached(tbl, t0, need0, input, pos, used, i) && IsLink(tbl[i])
    ensures Midway(tbl, t0, need0, input, pos, used, i + tbl[i].base, tbl[i].exop)
    ensures tbl[i].exop <= need0
  {
  }

  lemma {:induction false} Lookahead(t: Tables)
    requires TablesOK(t)
    ensures t.lbits <= 9 && t.dbits <= 9
  {
  }
}
