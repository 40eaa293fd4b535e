/**
  `inflate_blocks`: the resumable machine over the blocks of a stream.

  `Meaning` says what the rest of the stream leads to, in each state the machine can
  be suspended in.  Every step keeps it.
 */
module InflateBlocks {
  import opened Bits
  import opened Canonical
  import opened HuftTables
  import opened Deflate
  import opened ZStatus
  import opened InflateTrees
  import C = InflateCodes
  import HuftBuild
  import W = Window
  import R = BitReader

  datatype BlockMode = Type | Lens | Stored | Table | BTree | DTree | InCodes | Dry | Finished | BadBlock

  // ----- fields of the 14-bit table header ---------------------------------------------

  /** More codes than there are symbols. */
  predicate TooMany(table: nat) { table % 32 > 29 || (table / 32) % 32 > 29 }
  function LiteralCount(table: nat): (r: nat) { 257 + table % 32 }
  function DistanceCount(table: nat): (r: nat) { 1 + (table / 32) % 32 }
  function LengthCount(table: nat): (r: nat) { 4 + table / 1024 }
  function Total(table: nat): (r: nat) { 258 + table % 32 + (table / 32) % 32 }

  lemma {:induction false} CountsAre(table: nat)
    ensures LiteralCount(table) + DistanceCount(table) == Total(table)
    ensures table < 16384 ==> LengthCount(table) <= 19 && 19 <= Total(table)
    ensures !TooMany(table) ==> 257 <= LiteralCount(table) <= 286 && 1 <= DistanceCount(table) <= 30
  {
  }

  lemma {:induction false} FieldSplit(input: seq<byte>, pos: nat, n: nat, w: nat)
    requires w <= n
    ensures Field(input, pos, n) % Pow2(w) == Field(input, pos, w)
    ensures Field(input, pos, n) / Pow2(w) == Field(input, pos + w, n - w)
  {
    var s := Peek(input, pos, n);
    LsbSplit(s, w);
    assert s[..w] == Peek(input, pos, w);
    assert s[w..] == Peek(input, pos + w, n - w);
  }

  lemma {:induction false} SomePowers()
    ensures Pow2(1) == 2 && Pow2(2) == 4 && Pow2(3) == 8 && Pow2(4) == 16 && Pow2(5) == 32 && Pow2(14) == 16384 && Pow2(16) == 65536
  {
    assert Pow2(1) == 2 && Pow2(2) == 4 && Pow2(3) == 8 && Pow2(4) == 16 && Pow2(5) == 32;
    Pow2Add(5, 5);
    Pow2Add(10, 4);
    Pow2Add(14, 2);
  }

  lemma {:induction false} HeaderFields(input: seq<byte>, pos: nat, table: nat)
    requires table == Field(input, pos, 14)
    ensures table < 16384
    ensures table % 32 == Field(input, pos, 5)
    ensures (table / 32) % 32 == Field(input, pos + 5, 5)
    ensures table / 1024 == Field(input, pos + 10, 4)
  {
    SomePowers();
    FieldSplit(input, pos, 14, 5);
    FieldSplit(input, pos + 5, 9, 5);
    assert table / 1024 == (table / 32) / 32;
  }

  lemma {:induction false} TypeFields(input: seq<byte>, pos: nat, t: nat)
    requires t == Field(input, pos, 3)
    ensures t < 8 && t % 2 == Field(input, pos, 1) && t / 2 == Field(input, pos + 1, 2)
  {
    SomePowers();
    FieldSplit(input, pos, 3, 1);
  }

  // ----- the code-length code -------------------------------------------------------------

  /** What has been sent of the code-length code is in place; the rest is still to be cleared. */
  ghost predicate Sent(blens: seq<nat>, cl: seq<nat>, index: nat) {
    && |cl| == 19 && |blens| >= 19 && index <= 19
    && (forall i :: 0 <= i < 19 ==> cl[i] <= 7)
    && (forall j :: 0 <= j < index ==> blens[ORDER[j]] == cl[ORDER[j]])
    && (forall j :: index <= j < 19 ==> cl[ORDER[j]] == 0)
  }

  lemma {:induction false} OrderIsPermutation()
    ensures |ORDER| == 19 && forall j :: 0 <= j < 19 ==> ORDER[j] < 19
    ensures forall i, j :: 0 <= i < j < 19 ==> ORDER[i] != ORDER[j]
  {
  }

  lemma {:induction false} OrderCovers(i: nat) returns (j: nat)
    requires i < 19
    ensures j < 19 && ORDER[j] == i
  {
    var inverse: seq<nat> := [3, 17, 15, 13, 11, 9, 7, 5, 4, 6, 8, 10, 12, 14, 16, 18, 0, 1, 2];
    j := inverse[i];
  }

  lemma {:induction false} AllSent(blens: seq<nat>, cl: seq<nat>)
    requires Sent(blens, cl, 19)
    ensures blens[..19] == cl
  {
    forall i | 0 <= i < 19
      ensures blens[i] == cl[i]
    {
      var j := OrderCovers(i);
    }
  }

  lemma {:induction false} SentOne(blens: seq<nat>, cl: seq<nat>, index: nat, v: nat)
    requires Sent(blens, cl, index) && index < 19 && v <= 7
    ensures ORDER[index] < 19
    ensures Sent(blens[ORDER[index] := v], cl[ORDER[index] := v], index + 1)
    ensures v == 0 ==> cl[ORDER[index] := v] == cl
  {
    OrderIsPermutation();
  }

  // ----- how the reference decoder moves ----------------------------------------------------

  lemma {:induction false} DynamicIs(input: seq<byte>, pos: nat, hist: seq<byte>, table: nat)
    requires pos + 14 <= 8 * |input| && table == Field(input, pos, 14)
    ensures table < 16384
    ensures Dynamic(input, pos, hist) ==
            if TooMany(table) then Bad(hist)
            else BitLengths(input, pos + 14, hist, LiteralCount(table), DistanceCount(table), LengthCount(table), 0, Repeat(0, 19))
  {
    hide BitLengths;
    HeaderFields(input, pos, table);
    assert Repeat(0, 19) == seq(19, _ => 0);
  }

  lemma {:induction false} BitLengthsIs(input: seq<byte>, pos: nat, hist: seq<byte>, nl: nat, nd: nat, nc: nat, index: nat, cl: seq<nat>)
    requires |cl| == 19 && index < nc <= 19 && pos + 3 <= 8 * |input|
    ensures ORDER[index] < 19 && Field(input, pos, 3) <= 7
    ensures BitLengths(input, pos, hist, nl, nd, nc, index, cl)
         == BitLengths(input, pos + 3, hist, nl, nd, nc, index + 1, cl[ORDER[index] := Field(input, pos, 3)])
  {
    OrderIsPermutation();
    SomePowers();
  }

  lemma {:induction false} BitLengthsEnd(input: seq<byte>, pos: nat, hist: seq<byte>, nl: nat, nd: nat, nc: nat, cl: seq<nat>)
    requires |cl| == 19 && nc <= 19
    ensures BitLengths(input, pos, hist, nl, nd, nc, nc, cl) == if Accepts(cl) then Lengths(input, pos, hist, nl, nd, cl, []) else Bad(hist)
  {
    hide Lengths, Accepts;
  }

  /** One lookup in the table of the code-length code, with enough bits, reads one symbol. */
  lemma {:induction false} LookUpLength(tbl: seq<Huft>, tb: nat, bb: nat, cl: seq<nat>, input: seq<byte>, pos: nat, at: nat)
    requires Accepts(cl) && LengthTable(tbl, tb, bb, cl) && pos + bb <= 8 * |input| && at == tb + Field(input, pos, bb)
    ensures at < |tbl| && 0 < tbl[at].bits <= bb
    ensures ReadLength(input, pos, cl) == Read(tbl[at].base, tbl[at].bits)
    ensures tbl[at].base < |cl|
  {
    hide Accepts;
    var bits := Peek(input, pos, BMAX);
    assert bits[..bb] == Peek(input, pos, bb);
    assert LengthEntry(tbl, tb, bb, cl, bits);
  }

  function Extra(c: nat): (r: nat) requires c >= 16 { if c == 18 then 7 else c - 14 }
  function AtLeast(c: nat): (r: nat) { if c == 18 then 11 else 3 }

  lemma {:induction false} LengthsPlain(input: seq<byte>, pos: nat, hist: seq<byte>, nl: nat, nd: nat, cl: seq<nat>, lens: seq<nat>, c: nat, used: nat)
    requires Accepts(cl) && |lens| < nl + nd && ReadLength(input, pos, cl) == Read(c, used) && c < 16
    ensures Lengths(input, pos, hist, nl, nd, cl, lens) == Lengths(input, pos + used, hist, nl, nd, cl, lens + [c])
  {
    hide Accepts, ReadLength;
  }

  lemma {:induction false} LengthsRepeat(input: seq<byte>, pos: nat, hist: seq<byte>, nl: nat, nd: nat, cl: seq<nat>, lens: seq<nat>, c: nat, used: nat, n: nat, next: nat)
    requires Accepts(cl) && |lens| < nl + nd && ReadLength(input, pos, cl) == Read(c, used) && 16 <= c <= 18
    requires next == pos + used + Extra(c) <= 8 * |input| && n == AtLeast(c) + Field(input, pos + used, Extra(c))
    ensures Lengths(input, pos, hist, nl, nd, cl, lens) ==
            if |lens| + n > nl + nd || (c == 16 && lens == []) then Bad(hist)
            else Lengths(input, next, hist, nl, nd, cl, lens + Repeat(if c == 16 then lens[|lens| - 1] else 0, n))
  {
    hide Accepts, ReadLength, Field, Codes, AcceptsPair;
  }

  lemma {:induction false} LengthsEnd(input: seq<byte>, pos: nat, hist: seq<byte>, nl: nat, nd: nat, cl: seq<nat>, lens: seq<nat>)
    requires Accepts(cl) && |lens| == nl + nd
    ensures Lengths(input, pos, hist, nl, nd, cl, lens) ==
            if AcceptsPair(lens[..nl], lens[nl..]) then Codes(input, pos, hist, lens[..nl], lens[nl..]) else Bad(hist)
  {
    hide Accepts, AcceptsPair, ReadLength;
  }

  lemma {:induction false} BlocksIs(input: seq<byte>, pos: nat, hist: seq<byte>, t: nat)
    requires pos + 3 <= 8 * |input| && t == Field(input, pos, 3)
    ensures t < 8
    ensures Blocks(input, pos, hist) == Rest(input, t % 2 == 1, Block(input, pos + 3, hist, t / 2))
  {
    hide Block;
    TypeFields(input, pos, t);
  }

  lemma {:induction false} RestIs(input: seq<byte>, last: bool, pos: nat, hist: seq<byte>)
    ensures Rest(input, last, Bad(hist)) == Bad(hist)
    ensures Rest(input, last, Done(pos, hist)) == if last then Done(pos, hist) else Blocks(input, pos, hist)
  {
    hide Blocks;
  }

  /** The upper half of a 32-bit word is the complement of the lower. */
  predicate Agree(v: nat) {
    65535 - v / 65536 == v % 65536
  }

  function LowHalf(v: nat): (r: nat) {
    v % 65536
  }

  lemma {:induction false} StoredLengthIs(input: seq<byte>, pos: nat, hist: seq<byte>, v: nat, p: nat)
    requires pos + 32 == 8 * p && p <= |input| && v == Field(input, pos, 32)
    ensures StoredLength(input, pos, hist) ==
            if !Agree(v) then Bad(hist) else StoredBytes(input, p, hist, LowHalf(v))
  {
    hide Pow2, Field, StoredBytes;
    SomePowers();
    FieldSplit(input, pos, 32, 16);
  }

  lemma {:induction false} WholeWord(k: nat, p: nat)
    requires 32 <= k <= 39 && k <= 8 * p && (8 * p - k) % 8 == 0
    ensures k == 32
  {
  }

  lemma {:induction false} SliceSplit(hist: seq<byte>, input: seq<byte>, a: nat, b: nat, c: nat)
    requires a <= b <= c <= |input|
    ensures hist + input[a..c] == (hist + input[a..b]) + input[b..c]
  {
    assert input[a..c] == input[a..b] + input[b..c];
  }

  lemma {:induction false} StoredBytesStep(input: seq<byte>, p: nat, hist: seq<byte>, left: nat, t: nat, p': nat, hist': seq<byte>)
    requires t <= left && p' == p + t <= |input| && hist' == hist + input[p..p']
    ensures StoredBytes(input, p, hist, left) == StoredBytes(input, p', hist', left - t)
  {
    var end := if p + left > |input| then |input| else p + left;
    SliceSplit(hist, input, p, p', end);
    assert p + left > |input| ==> input[p..] == input[p..end] && input[p'..] == input[p'..end];
    assert p + left == p' + (left - t);
  }

  lemma {:induction false} StoredBytesEnd(input: seq<byte>, p: nat, hist: seq<byte>)
    requires p <= |input|
    ensures StoredBytes(input, p, hist, 0) == Done(8 * p, hist)
  {
    assert input[p..p] == [];
  }

  /** NEEDBITS: fetching a byte counts as progress. */
  method Need(rd: R.BitReader, j: nat, r: Status) returns (ok: bool, r': Status)
    requires rd.Valid() && (j <= R.WORD - 7 || (j == R.WORD && rd.k % 8 == 0))
    modifies rd
    ensures rd.Valid() && rd.Pos() == old(rd.Pos())
    ensures if ok then j <= rd.k else rd.k < j && rd.n == 0
    ensures rd.k == old(rd.k) || rd.k <= j + 7
    ensures rd.k % 8 == old(rd.k) % 8 && old(rd.k) <= rd.k
    ensures r' == if rd.n < old(rd.n) then ZOk else r
  {
    hide R.Holds;
    var n0 := rd.n;
    ok := rd.NeedBits(j);
    r' := if rd.n < n0 then ZOk else r;
  }

  /** The `i` bits behind the next `t`. */
  method TakeField(rd: R.BitReader, t: nat, i: nat) returns (v: nat)
    requires rd.Valid() && t + i <= rd.k
    modifies rd
    ensures rd.Valid() && rd.Pos() == old(rd.Pos()) + t + i && rd.k == old(rd.k) - t - i && rd.n == old(rd.n)
    ensures v == Field(rd.input, old(rd.Pos()) + t, i)
  {
    hide R.Holds, Field, Peek;
    rd.DumpBits(t);
    v := rd.Low(i);
    rd.DumpBits(i);
  }

  /** Bytes straight from the input to the window. */
  method Transfer(rd: R.BitReader, win: W.Window, t: nat)
    requires rd.Valid() && rd.k == 0 && t <= rd.n && rd.b == Zeros(R.WORD) && win.Valid() && t <= win.room
    modifies rd`p, rd`n, win, win.buf
    ensures rd.Valid() && rd.p == old(rd.p) + t && rd.n == old(rd.n) - t
    ensures win.Valid() && win.output == old(win.output) && win.hist == old(win.hist) + rd.input[old(rd.p)..rd.p]
    ensures |win.hist| >= W.WSIZE
  {
    hide R.Holds, W.Mirrors;
    var bytes := rd.TakeBytes(t);
    win.PutBytes(bytes);
  }

  lemma {:induction false} SkipToByte(pos: nat, k: nat, p: nat)
    requires pos + k == 8 * p
    ensures ByteBoundary(pos) == pos + k % 8
  {
  }

  lemma {:induction false} NothingSent(blens: seq<nat>)
    requires |blens| >= 19
    ensures Sent(blens, Repeat(0, 19), 0)
  {
    OrderIsPermutation();
  }

  // ----- the machine --------------------------------------------------------------------------

  class BlocksState {
    /** Table space, and that of the fixed codes. */
    const hufts: array<Huft>
    const fixedMem: array<Huft>
    /** What the n-th piece of allocated memory happens to hold. */
    const junk: (nat, nat) -> nat
    var allocations: nat
    var mode: BlockMode
    var last: bool
    var left: nat
    var table: nat
    var index: nat
    var blens: seq<nat>
    var bb: nat
    var tb: nat
    var codes: C.CodesState?
    /** The lengths of the code-length code; `blens` is used again for the lengths it codes. */
    ghost var cl: seq<nat>

    ghost predicate HasTable()
      reads this
    {
      table < 16384 && !TooMany(table) && |blens| == Total(table)
    }

    /** There is a code-length code, with its table while there are lengths to read. */
    ghost predicate HasLengths()
      requires HasTable() && index <= Total(table)
      reads this, hufts
    {
      && |cl| == 19 && Accepts(cl)
      && (forall i :: 0 <= i < index ==> blens[i] <= BMAX)
      && (index == Total(table) || LengthTable(hufts[..], tb, bb, cl))
    }

    ghost predicate HasCodes()
      reads this, codes
    {
      codes != null && C.TablesOK(codes.t) && codes.mode != C.End
    }

    /** What holds in each mode, at bit position `pos` of the input. */
    ghost predicate Here(input: seq<byte>, pos: nat)
      reads this, hufts, codes
    {
      match mode
      case Type => true
      case Lens => pos % 8 == 0
      case Stored => pos % 8 == 0 && pos <= 8 * |input| && left > 0
      case Table => true
      case BTree => HasTable() && index <= LengthCount(table) && Sent(blens, cl, index)
      case DTree =>
        HasTable() && index <= Total(table) && HasLengths()
      case InCodes => HasCodes() && codes.Here(input, pos)
      case Dry => true
      case Finished => true
      case BadBlock => true
    }

    /** How the stream ends from here on. */
    ghost function Meaning(input: seq<byte>, pos: nat, hist: seq<byte>): (r: Ending)
      requires Here(input, pos) && |hist| >= W.WSIZE
      reads this, hufts, codes
    {
      match mode
      case Type => Blocks(input, pos, hist)
      case Lens => Rest(input, last, StoredLength(input, pos, hist))
      case Stored => Rest(input, last, StoredBytes(input, pos / 8, hist, left))
      case Table => Rest(input, last, Dynamic(input, pos, hist))
      case BTree => Rest(input, last, BitLengths(input, pos, hist, LiteralCount(table), DistanceCount(table), LengthCount(table), index, cl))
      case DTree => Rest(input, last, Lengths(input, pos, hist, LiteralCount(table), DistanceCount(table), cl, blens[..index]))
      case InCodes => Rest(input, last, codes.Meaning(input, pos, hist))
      case Dry => Done(pos, hist)
      case Finished => Done(pos, hist)
      case BadBlock => Bad(hist)
    }

    /** How many bits may be waiting in the buffer. */
    ghost predicate Buffered(k: nat)
      reads this
    {
      match mode
      case Lens => k < 32
      case Stored => k == 0
      case Dry => k <= 7
      case Finished => k <= 7
      case BadBlock => true
      case _ => k <= 15
    }

    ghost predicate Ready(rd: R.BitReader)
      reads this, hufts, codes, rd
    {
      && rd.Valid() && Buffered(rd.k) && Here(rd.input, rd.Pos())
      && (mode == Stored ==> rd.b == Zeros(R.WORD))
    }

    ghost predicate Valid(rd: R.BitReader, win: W.Window)
      reads this, hufts, codes, rd, win, win.buf
    {
      && HuftBuild.MANY <= hufts.Length && HuftBuild.MANY <= fixedMem.Length
      && Ready(rd) && win.Valid()
      && (mode == Finished ==> |win.hist| == W.WSIZE + |win.output|)
    }

    ghost function RestOf(rd: R.BitReader, win: W.Window): (r: Ending)
      requires Valid(rd, win)
      reads this, hufts, codes, rd, win, win.buf
    {
      Meaning(rd.input, rd.Pos(), win.hist)
    }

    // What `Here` and `Meaning` say, mode by mode.

    lemma AtType(input: seq<byte>, pos: nat, hist: seq<byte>)
      requires mode == Type && |hist| >= W.WSIZE
      ensures Here(input, pos) && Meaning(input, pos, hist) == Blocks(input, pos, hist)
    {
      hide Rest, Blocks, StoredLength, StoredBytes, Dynamic, BitLengths, Lengths, C.CodesState.Meaning, C.CodesState.Here, C.TablesOK, LengthTable, Accepts, Sent;
    }

    lemma AtLens(input: seq<byte>, pos: nat, hist: seq<byte>)
      requires mode == Lens && |hist| >= W.WSIZE
      ensures Here(input, pos) <==> pos % 8 == 0
      ensures Here(input, pos) ==> Meaning(input, pos, hist) == Rest(input, last, StoredLength(input, pos, hist))
    {
      hide Rest, Blocks, StoredLength, StoredBytes, Dynamic, BitLengths, Lengths, C.CodesState.Meaning, C.CodesState.Here, C.TablesOK, LengthTable, Accepts, Sent;
    }

    lemma AtStored(input: seq<byte>, pos: nat, hist: seq<byte>, p: nat)
      requires mode == Stored && |hist| >= W.WSIZE && pos == 8 * p
      ensures Here(input, pos) <==> p <= |input| && left > 0
      ensures Here(input, pos) ==> Meaning(input, pos, hist) == Rest(input, last, StoredBytes(input, p, hist, left))
    {
      hide Rest, Blocks, StoredLength, StoredBytes, Dynamic, BitLengths, Lengths, C.CodesState.Meaning, C.CodesState.Here, C.TablesOK, LengthTable, Accepts, Sent;
    }

    lemma AtTable(input: seq<byte>, pos: nat, hist: seq<byte>)
      requires mode == Table && |hist| >= W.WSIZE
      ensures Here(input, pos) && Meaning(input, pos, hist) == Rest(input, last, Dynamic(input, pos, hist))
    {
      hide Rest, Blocks, StoredLength, StoredBytes, Dynamic, BitLengths, Lengths, C.CodesState.Meaning, C.CodesState.Here, C.TablesOK, LengthTable, Accepts, Sent;
    }

    lemma AtBTree(input: seq<byte>, pos: nat, hist: seq<byte>)
      requires mode == BTree && |hist| >= W.WSIZE
      ensures Here(input, pos) <==> HasTable() && index <= LengthCount(table) && Sent(blens, cl, index)
      ensures Here(input, pos) ==> Meaning(input, pos, hist) == Rest(input, last, BitLengths(input, pos, hist, LiteralCount(table), DistanceCount(table), LengthCount(table), index, cl))
    {
      hide Rest, Blocks, StoredLength, StoredBytes, Dynamic, BitLengths, Lengths, C.CodesState.Meaning, C.CodesState.Here, C.TablesOK, LengthTable, Accepts;
    }

    lemma AtDTree(input: seq<byte>, pos: nat, hist: seq<byte>)
      requires mode == DTree && |hist| >= W.WSIZE
      ensures Here(input, pos) <==> HasTable() && index <= Total(table) && HasLengths()
      ensures Here(input, pos) ==> Meaning(input, pos, hist) == Rest(input, last, Lengths(input, pos, hist, LiteralCount(table), DistanceCount(table), cl, blens[..index]))
    {
      hide Rest, Blocks, StoredLength, StoredBytes, Dynamic, BitLengths, Lengths, C.CodesState.Meaning, C.CodesState.Here, C.TablesOK, LengthTable, Accepts, Sent;
    }

    lemma AtInCodes(input: seq<byte>, pos: nat, hist: seq<byte>)
      requires mode == InCodes && |hist| >= W.WSIZE
      ensures Here(input, pos) <==> HasCodes() && codes.Here(input, pos)
      ensures Here(input, pos) ==> Meaning(input, pos, hist) == Rest(input, last, codes.Meaning(input, pos, hist))
    {
      hide Rest, Blocks, StoredLength, StoredBytes, Dynamic, BitLengths, Lengths, C.CodesState.Meaning, C.CodesState.Here, C.TablesOK, LengthTable, Accepts, Sent;
    }

    lemma AtBadBlock(input: seq<byte>, pos: nat, hist: seq<byte>)
      requires mode == BadBlock && |hist| >= W.WSIZE
      ensures Here(input, pos) && Meaning(input, pos, hist) == Bad(hist)
    {
      hide Rest, Blocks, StoredLength, StoredBytes, Dynamic, BitLengths, Lengths, C.CodesState.Meaning, C.CodesState.Here, C.TablesOK, LengthTable, Accepts, Sent;
    }

    lemma AtEnd(input: seq<byte>, pos: nat, hist: seq<byte>)
      requires (mode == Dry || mode == Finished) && |hist| >= W.WSIZE
      ensures Here(input, pos) && Meaning(input, pos, hist) == Done(pos, hist)
    {
      hide Rest, Blocks, StoredLength, StoredBytes, Dynamic, BitLengths, Lengths, C.CodesState.Meaning, C.CodesState.Here, C.TablesOK, LengthTable, Accepts, Sent;
    }

    /** Where the stream goes on after a block. */
    lemma AtNext(input: seq<byte>, pos: nat, hist: seq<byte>)
      requires mode == (if last then Dry else Type) && |hist| >= W.WSIZE
      ensures Here(input, pos) && Meaning(input, pos, hist) == Rest(input, last, Done(pos, hist))
    {
      hide Meaning, Here, Rest, Blocks;
      RestIs(input, last, pos, hist);
      if last {
        AtEnd(input, pos, hist);
      } else {
        AtType(input, pos, hist);
      }
    }

    /** The output so far stays, and the end is not behind, save for the bits of a symbol half looked up. */
    lemma EndsAhead(input: seq<byte>, pos: nat, hist: seq<byte>)
      requires Here(input, pos) && |hist| >= W.WSIZE
      ensures var e := Meaning(input, pos, hist); hist <= e.hist && (e.Done? ==> pos <= e.pos + (if mode == InCodes then BMAX else 0))
    {
      hide C.TablesOK, C.CodesState.Meaning, C.CodesState.Here, Rest, Blocks, StoredLength, StoredBytes, Dynamic, BitLengths, Lengths, Sent, LengthTable, Accepts;
      if mode == InCodes {
        codes.EndsAhead(input, pos, hist);
      }
    }

    /** `inflate_blocks_new`. */
    constructor (junk: (nat, nat) -> nat)
      ensures mode == Type && fresh(hufts) && fresh(fixedMem) && codes == null
      ensures HuftBuild.MANY <= hufts.Length && HuftBuild.MANY <= fixedMem.Length
    {
      hufts := new Huft[HuftBuild.MANY](_ => Huft(0, 0, 0));
      fixedMem := new Huft[HuftBuild.MANY](_ => Huft(0, 0, 0));
      this.junk, allocations := junk, 0;
      mode, last, left, table, index, blens, bb, tb, codes := Type, false, 0, 0, 0, [], 0, 0, null;
      cl := [];
    }

    // ----- block headers -----------------------------------------------------------------------

    /** TYPE: the three bits that begin a block. */
    method StepType(rd: R.BitReader, r: Status, ghost hist: seq<byte>) returns (go: bool, r': Status)
      requires HuftBuild.MANY <= fixedMem.Length && mode == Type
      requires Ready(rd) && |hist| >= W.WSIZE
      modifies this, fixedMem, rd
      ensures Ready(rd)
      ensures codes == old(codes) || fresh(codes)
      ensures Meaning(rd.input, rd.Pos(), hist) == old(Meaning(rd.input, rd.Pos(), hist))
      ensures rd.Pos() >= old(rd.Pos())
      ensures go ==> rd.Pos() > old(rd.Pos()) && (mode == Lens || mode == InCodes || mode == Table) && (r' == r || r' == ZOk)
      ensures !go ==> (mode == BadBlock && r' == ZDataError) || (mode == Type && rd.n == 0 && (r' == r || r' == ZOk))
    {
      hide R.Holds, Meaning, Here, Rest, Blocks, Block, Field, Peek, Pow2, C.TablesOK;
      AtType(rd.input, rd.Pos(), hist);
      go, r' := Need(rd, 3, r);
      if !go {
        AtType(rd.input, rd.Pos(), hist);
        return;
      }
      ghost var pos := rd.Pos();
      var t := rd.Low(3);
      BlocksIs(rd.input, pos, hist, t);
      last := t % 2 == 1;
      rd.DumpBits(3);
      go := OpenBlock(rd, t / 2, hist);
      if !go {
        r' := ZDataError;
      }
    }

    /** A block of this kind begins. */
    method OpenBlock(rd: R.BitReader, kind: nat, ghost hist: seq<byte>) returns (go: bool)
      requires HuftBuild.MANY <= fixedMem.Length && rd.Valid() && rd.k <= 15 && |hist| >= W.WSIZE
      modifies this`mode, this`codes, fixedMem, rd
      ensures Ready(rd) && rd.Pos() >= old(rd.Pos()) && (codes == old(codes) || fresh(codes))
      ensures Meaning(rd.input, rd.Pos(), hist) == Rest(rd.input, last, Block(rd.input, old(rd.Pos()), hist, kind))
      ensures if go then mode == Lens || mode == InCodes || mode == Table else mode == BadBlock
    {
      hide R.Holds, Meaning, Here, Rest, Blocks, StoredLength, Codes, Dynamic, ByteBoundary;
      go := true;
      match kind {
        case 0 =>
          OpenStored(rd, hist);
        case 1 =>
          OpenFixed(rd.input, rd.Pos(), hist);
        case 2 =>
          mode := Table;
          AtTable(rd.input, rd.Pos(), hist);
        case _ =>
          mode, go := BadBlock, false;
          RestIs(rd.input, last, rd.Pos(), hist);
          AtBadBlock(rd.input, rd.Pos(), hist);
      }
    }

    /** Goes to the byte boundary, where a stored block begins. */
    method OpenStored(rd: R.BitReader, ghost hist: seq<byte>)
      requires rd.Valid() && rd.k <= 15 && |hist| >= W.WSIZE
      modifies this`mode, rd
      ensures mode == Lens && Ready(rd) && rd.Pos() == ByteBoundary(old(rd.Pos()))
      ensures Meaning(rd.input, rd.Pos(), hist) == Rest(rd.input, last, StoredLength(rd.input, rd.Pos(), hist))
    {
      hide R.Holds, Meaning, Here, Rest, StoredLength;
      SkipToByte(rd.Pos(), rd.k, rd.p);
      rd.DumpBits(rd.k % 8);
      mode := Lens;
      AtLens(rd.input, rd.Pos(), hist);
    }

    /** Sets up the fixed codes. */
    method OpenFixed(ghost input: seq<byte>, ghost pos: nat, ghost hist: seq<byte>)
      requires HuftBuild.MANY <= fixedMem.Length && |hist| >= W.WSIZE
      modifies this`mode, this`codes, fixedMem
      ensures mode == InCodes && fresh(codes)
      ensures Here(input, pos) && Meaning(input, pos, hist) == Rest(input, last, Codes(input, pos, hist, FIXED_LITERALS, FIXED_DISTANCES))
    {
      hide Meaning, Here, Rest, Codes, C.TablesOK;
      var tables := TreesFixed(fixedMem);
      OpenCodes(tables, input, pos, hist);
    }

    /** `inflate_codes_new`. */
    method OpenCodes(tables: C.Tables, ghost input: seq<byte>, ghost pos: nat, ghost hist: seq<byte>)
      requires C.TablesOK(tables) && |hist| >= W.WSIZE
      modifies this`mode, this`codes
      ensures mode == InCodes && fresh(codes)
      ensures Here(input, pos) && Meaning(input, pos, hist) == Rest(input, last, Codes(input, pos, hist, tables.ll, tables.dl))
    {
      hide Meaning, Here, Rest, Codes, C.TablesOK;
      codes := new C.CodesState(tables);
      mode := InCodes;
      AtInCodes(input, pos, hist);
    }

    /** LENS: the length of a stored block and its complement. */
    method StepLens(rd: R.BitReader, r: Status, ghost hist: seq<byte>) returns (go: bool, r': Status)
      requires mode == Lens
      requires Ready(rd) && |hist| >= W.WSIZE
      modifies this`mode, this`left, rd
      ensures Ready(rd)
      ensures Meaning(rd.input, rd.Pos(), hist) == old(Meaning(rd.input, rd.Pos(), hist))
      ensures rd.Pos() >= old(rd.Pos())
      ensures go ==> rd.Pos() > old(rd.Pos()) && (mode == Stored || mode == Dry || mode == Type) && (r' == r || r' == ZOk)
      ensures !go ==> (mode == BadBlock && r' == ZDataError) || (mode == Lens && rd.n == 0 && (r' == r || r' == ZOk))
    {
      hide R.Holds, Meaning, Here, Rest, Blocks, Field, Peek, Pow2, StoredLength, StoredBytes, Agree, LowHalf;
      AtLens(rd.input, rd.Pos(), hist);
      go, r' := Need(rd, 32, r);
      if !go {
        AtLens(rd.input, rd.Pos(), hist);
        return;
      }
      var v := rd.Low(32);
      WholeWord(rd.k, rd.p);
      StoredLengthIs(rd.input, rd.Pos(), hist, v, rd.p);
      if !Agree(v) {
        mode := BadBlock;
        RestIs(rd.input, last, rd.Pos(), hist);
        AtBadBlock(rd.input, rd.Pos(), hist);
        return false, ZDataError;
      }
      rd.DropAll();
      BeginStored(LowHalf(v), rd.input, rd.p, hist);
    }

    /** The bytes of a stored block, if there are any. */
    method BeginStored(n: nat, ghost input: seq<byte>, ghost p: nat, ghost hist: seq<byte>)
      requires p <= |input| && |hist| >= W.WSIZE
      modifies this`mode, this`left
      ensures (mode == Stored || mode == Dry || mode == Type) && Here(input, 8 * p)
      ensures Meaning(input, 8 * p, hist) == Rest(input, last, StoredBytes(input, p, hist, n))
    {
      hide Meaning, Here, Rest, Blocks, StoredBytes;
      left := n;
      if left > 0 {
        mode := Stored;
        AtStored(input, 8 * p, hist, p);
      } else {
        mode := if last then Dry else Type;
        StoredBytesEnd(input, p, hist);
        AtNext(input, 8 * p, hist);
      }
    }

    /** The bytes that fit. */
    method MoveStored(rd: R.BitReader, win: W.Window)
      requires Valid(rd, win) && mode == Stored && rd.n > 0 && win.room > 0
      modifies this`mode, this`left, rd, win, win.buf
      ensures Valid(rd, win) && win.output == old(win.output)
      ensures RestOf(rd, win) == old(RestOf(rd, win))
      ensures rd.Pos() > old(rd.Pos())
    {
      hide R.Holds, W.Mirrors, W.Window.Carried, Meaning, Here, Rest, Blocks, StoredBytes;
      win.HistoryIsLong();
      AtStored(rd.input, rd.Pos(), win.hist, rd.p);
      var t := Least(Least(left, rd.n), win.room);
      ghost var p, hist := rd.p, win.hist;
      Transfer(rd, win, t);
      StoredBytesStep(rd.input, p, hist, left, t, rd.p, win.hist);
      left := left - t;
      if left == 0 {
        StoredBytesEnd(rd.input, rd.p, win.hist);
        mode := if last then Dry else Type;
        AtNext(rd.input, rd.Pos(), win.hist);
      } else {
        AtStored(rd.input, rd.Pos(), win.hist, rd.p);
      }
    }

    /** STORED: as many bytes as there are, in the input and in the window. */
    method StepStored(rd: R.BitReader, win: W.Window, r: Status) returns (go: bool, r': Status)
      requires Valid(rd, win) && mode == Stored
      modifies this`mode, this`left, rd, win, win.buf
      ensures Valid(rd, win) && old(win.output) <= win.output
      ensures RestOf(rd, win) == old(RestOf(rd, win))
      ensures rd.Pos() >= old(rd.Pos()) && (r' == r || r' == ZOk)
      ensures go ==> rd.Pos() > old(rd.Pos())
      ensures !go ==> mode == Stored && (rd.n == 0 || win.availOut == 0)
    {
      hide R.Holds, W.Mirrors, Meaning, Here, Rest, Blocks, StoredBytes;
      AtStored(rd.input, rd.Pos(), win.hist, rd.p);
      if rd.n == 0 {
        return false, r;
      }
      go, r' := win.NeedOut(r);
      if go {
        MoveStored(rd, win);
      }
    }

    /** TABLE: how many codes there are. */
    method StepTable(rd: R.BitReader, r: Status, ghost hist: seq<byte>) returns (go: bool, r': Status)
      requires mode == Table
      requires Ready(rd) && |hist| >= W.WSIZE
      modifies this`mode, this`table, this`blens, this`index, this`cl, this`allocations, rd
      ensures Ready(rd)
      ensures Meaning(rd.input, rd.Pos(), hist) == old(Meaning(rd.input, rd.Pos(), hist))
      ensures rd.Pos() >= old(rd.Pos())
      ensures go ==> rd.Pos() > old(rd.Pos()) && mode == BTree && (r' == r || r' == ZOk)
      ensures !go ==> (mode == BadBlock && r' == ZDataError) || (mode == Table && rd.n == 0 && (r' == r || r' == ZOk))
    {
      hide R.Holds, Meaning, Here, Rest, Field, Peek, Pow2, Dynamic, BitLengths, Sent, Repeat, TooMany, Total, LiteralCount, DistanceCount, LengthCount;
      AtTable(rd.input, rd.Pos(), hist);
      go, r' := Need(rd, 14, r);
      if !go {
        AtTable(rd.input, rd.Pos(), hist);
        return;
      }
      go := TakeTable(rd, hist);
      r' := if go then r' else ZDataError;
    }

    /** The numbers of codes. */
    method TakeTable(rd: R.BitReader, ghost hist: seq<byte>) returns (go: bool)
      requires mode == Table && rd.Valid() && 14 <= rd.k < 22 && |hist| >= W.WSIZE
      modifies this`mode, this`table, this`blens, this`index, this`cl, this`allocations, rd
      ensures Ready(rd)
      ensures Meaning(rd.input, rd.Pos(), hist) == old(Meaning(rd.input, rd.Pos(), hist))
      ensures if go then rd.Pos() > old(rd.Pos()) && mode == BTree else rd.Pos() == old(rd.Pos()) && mode == BadBlock
    {
      hide R.Holds, Meaning, Here, Rest, Field, Peek, Pow2, Dynamic, BitLengths, Sent, Repeat, TooMany, Total, LiteralCount, DistanceCount, LengthCount;
      AtTable(rd.input, rd.Pos(), hist);
      var v := rd.Low(14);
      DynamicIs(rd.input, rd.Pos(), hist, v);
      table := v;
      go := !TooMany(v);
      if !go {
        mode := BadBlock;
        RestIs(rd.input, last, rd.Pos(), hist);
        AtBadBlock(rd.input, rd.Pos(), hist);
        return;
      }
      rd.DumpBits(14);
      BeginTrees(rd.input, rd.Pos(), hist);
    }

    /** Room for the lengths. */
    method BeginTrees(ghost input: seq<byte>, ghost pos: nat, ghost hist: seq<byte>)
      requires table < 16384 && !TooMany(table) && |hist| >= W.WSIZE
      modifies this`mode, this`blens, this`index, this`cl, this`allocations
      ensures mode == BTree && Here(input, pos) && LengthCount(table) <= 19
      ensures Meaning(input, pos, hist) ==
              Rest(input, last, BitLengths(input, pos, hist, LiteralCount(table), DistanceCount(table), LengthCount(table), 0, Repeat(0, 19)))
    {
      hide Meaning, Here, Rest, BitLengths, Sent, Repeat, TooMany, Total, LiteralCount, DistanceCount, LengthCount;
      CountsAre(table);
      var which, memory := allocations, junk;
      blens := seq(Total(table), i requires 0 <= i => memory(which, i));
      allocations := allocations + 1;
      cl := Repeat(0, 19);
      NothingSent(blens);
      index, mode := 0, BTree;
      AtBTree(input, pos, hist);
    }

    // ----- the code-length code -------------------------------------------------------------------

    /** BTREE, first part: the lengths that are sent. */
    method ReadBitLengths(rd: R.BitReader, r: Status, ghost hist: seq<byte>) returns (ok: bool, r': Status)
      requires mode == BTree
      requires Ready(rd) && |hist| >= W.WSIZE
      modifies this`blens, this`index, this`cl, rd
      ensures Ready(rd)
      ensures Meaning(rd.input, rd.Pos(), hist) == old(Meaning(rd.input, rd.Pos(), hist))
      ensures rd.Pos() >= old(rd.Pos()) && (r' == r || r' == ZOk)
      ensures if ok then index == LengthCount(table) else rd.n == 0
    {
      hide R.Holds, Meaning, Here;
      r' := r;
      AtBTree(rd.input, rd.Pos(), hist);
      while index < LengthCount(table)
        invariant Ready(rd) && index <= LengthCount(table)
        invariant Meaning(rd.input, rd.Pos(), hist) == old(Meaning(rd.input, rd.Pos(), hist))
        invariant rd.Pos() >= old(rd.Pos()) && (r' == r || r' == ZOk)
      {
        ok, r' := ReadBitLength(rd, r', hist);
        if !ok {
          return;
        }
      }
      ok := true;
    }

    method ReadBitLength(rd: R.BitReader, r: Status, ghost hist: seq<byte>) returns (ok: bool, r': Status)
      requires mode == BTree && index < LengthCount(table)
      requires Ready(rd) && |hist| >= W.WSIZE
      modifies this`blens, this`index, this`cl, rd
      ensures Ready(rd)
      ensures Meaning(rd.input, rd.Pos(), hist) == old(Meaning(rd.input, rd.Pos(), hist))
      ensures rd.Pos() >= old(rd.Pos()) && (r' == r || r' == ZOk)
      ensures if ok then index == old(index) + 1 else rd.n == 0
    {
      hide R.Holds, Meaning, Here, Rest, Field, Peek, Pow2, BitLengths, Sent, LengthCount, Total, LiteralCount, DistanceCount, TooMany;
      CountsAre(table);
      AtBTree(rd.input, rd.Pos(), hist);
      ok, r' := Need(rd, 3, r);
      if !ok {
        AtBTree(rd.input, rd.Pos(), hist);
        return;
      }
      var v := rd.Low(3);
      SentIsSent(blens, cl, index);
      BitLengthsIs(rd.input, rd.Pos(), hist, LiteralCount(table), DistanceCount(table), LengthCount(table), index, cl);
      rd.DumpBits(3);
      StoreBitLength(v);
      AtBTree(rd.input, rd.Pos(), hist);
    }

    method StoreBitLength(v: nat)
      requires Sent(blens, cl, index) && index < 19 && v <= 7
      modifies this`blens, this`index, this`cl
      ensures Sent(blens, cl, index) && index == old(index) + 1 && |blens| == old(|blens|)
      ensures |old(cl)| == 19 && ORDER[old(index)] < 19 && cl == old(cl)[ORDER[old(index)] := v]
    {
      SentIsSent(blens, cl, index);
      SentOne(blens, cl, index, v);
      hide Sent;
      blens, cl, index := blens[ORDER[index] := v], cl[ORDER[index] := v], index + 1;
    }

    /** BTREE, second part: the lengths that are not sent are zero. */
    method ClearBitLengths()
      requires Sent(blens, cl, index)
      modifies this`blens, this`index
      ensures index == 19 && Sent(blens, cl, 19) && |blens| == old(|blens|)
    {
      hide Sent;
      SentIsSent(blens, cl, index);
      while index < 19
        invariant index <= 19 && Sent(blens, cl, index) && |blens| == old(|blens|) && 19 <= |blens|
      {
        SentOne(blens, cl, index, 0);
        blens, index := blens[ORDER[index] := 0], index + 1;
      }
    }

    /** BTREE. */
    method StepBTree(rd: R.BitReader, r: Status, ghost hist: seq<byte>) returns (go: bool, r': Status)
      requires mode == BTree && HuftBuild.MANY <= hufts.Length
      requires Ready(rd) && |hist| >= W.WSIZE
      modifies this, hufts, rd
      ensures Ready(rd) && codes == old(codes)
      ensures Meaning(rd.input, rd.Pos(), hist) == old(Meaning(rd.input, rd.Pos(), hist))
      ensures rd.Pos() >= old(rd.Pos())
      ensures go ==> mode == DTree && (r' == r || r' == ZOk)
      ensures !go ==> (mode == BadBlock && r' == ZDataError) || (mode == BTree && rd.n == 0 && (r' == r || r' == ZOk))
    {
      hide R.Holds, Meaning, Here;
      go, r' := ReadBitLengths(rd, r, hist);
      if go {
        go := BuildLengthTable(rd.input, rd.Pos(), hist);
        r' := if go then r' else ZDataError;
      }
    }

    /** BTREE, third part: the table of the code-length code. */
    method BuildLengthTable(ghost input: seq<byte>, ghost pos: nat, ghost hist: seq<byte>) returns (ok: bool)
      requires mode == BTree && HuftBuild.MANY <= hufts.Length && |hist| >= W.WSIZE
      requires Here(input, pos) && index == LengthCount(table)
      modifies this, hufts
      ensures Here(input, pos) && codes == old(codes)
      ensures Meaning(input, pos, hist) == old(Meaning(input, pos, hist))
      ensures mode == if ok then DTree else BadBlock
    {
      hide Meaning, Here, Rest, BitLengths, Lengths, Sent, Accepts, LengthTable, LengthCount, Total, LiteralCount, DistanceCount, TooMany;
      CountsAre(table);
      AtBTree(input, pos, hist);
      BitLengthsAt(input, pos, hist);
      RestIs(input, last, pos, hist);
      ClearBitLengths();
      AllSent(blens, cl);
      SentIsSent(blens, cl, 19);
      var t;
      t, bb, tb := TreesBits(blens[..19], hufts);
      ok := t == ZOk;
      if ok {
        index, mode := 0, DTree;
        assert blens[..0] == [];
        AtDTree(input, pos, hist);
      } else {
        mode := BadBlock;
        AtBadBlock(input, pos, hist);
      }
    }

    lemma BitLengthsAt(input: seq<byte>, pos: nat, hist: seq<byte>)
      requires HasTable() && index == LengthCount(table) && Sent(blens, cl, index)
      ensures |cl| == 19
      ensures BitLengths(input, pos, hist, LiteralCount(table), DistanceCount(table), LengthCount(table), index, cl)
           == if Accepts(cl) then Lengths(input, pos, hist, LiteralCount(table), DistanceCount(table), cl, []) else Bad(hist)
    {
      hide BitLengths, Lengths, Accepts;
      BitLengthsEnd(input, pos, hist, LiteralCount(table), DistanceCount(table), LengthCount(table), cl);
    }

    // ----- the lengths of the two codes -----------------------------------------------------------

    /** One symbol of the code-length code: a length, or a repeat. */
    method ReadOneLength(rd: R.BitReader, r: Status, ghost hist: seq<byte>) returns (go: bool, r': Status)
      requires mode == DTree && index < Total(table)
      requires Ready(rd) && |hist| >= W.WSIZE
      modifies this`mode, this`blens, this`index, rd
      ensures Ready(rd)
      ensures Meaning(rd.input, rd.Pos(), hist) == old(Meaning(rd.input, rd.Pos(), hist))
      ensures rd.Pos() >= old(rd.Pos())
      ensures go ==> mode == DTree && (r' == r || r' == ZOk) && index > old(index)
      ensures !go ==> (mode == BadBlock && r' == ZDataError) || (mode == DTree && rd.n == 0 && (r' == r || r' == ZOk))
    {
      hide R.Holds, Meaning, Here, Rest, Field, Peek, Pow2, Lengths, ReadLength, Accepts, LengthTable, Total, LiteralCount, DistanceCount, TooMany;
      CountsAre(table);
      AtDTree(rd.input, rd.Pos(), hist);
      TableWidth(hufts[..], tb, bb, cl);
      go, r' := Need(rd, bb, r);
      if !go {
        AtDTree(rd.input, rd.Pos(), hist);
        return;
      }
      AtDTree(rd.input, rd.Pos(), hist);
      var v := rd.Low(bb);
      LookUpLength(hufts[..], tb, bb, cl, rd.input, rd.Pos(), tb + v);
      var h := hufts[tb + v];
      if h.base < 16 {
        ReadPlain(rd, hist, h.bits, h.base);
      } else {
        go, r' := ReadRepeat(rd, r', hist, h.bits, h.base);
      }
    }

    /** A length. */
    method ReadPlain(rd: R.BitReader, ghost hist: seq<byte>, t: nat, c: nat)
      requires mode == DTree && index < Total(table)
      requires Ready(rd) && |hist| >= W.WSIZE
      requires HasTable() && HasLengths() && t <= rd.k && c < 16 && ReadLength(rd.input, rd.Pos(), cl) == Read(c, t)
      modifies this`blens, this`index, rd
      ensures Ready(rd)
      ensures Meaning(rd.input, rd.Pos(), hist) == old(Meaning(rd.input, rd.Pos(), hist))
      ensures rd.Pos() >= old(rd.Pos()) && index == old(index) + 1
    {
      hide R.Holds, Meaning, Here, Rest, Peek, Pow2, Lengths, ReadLength, Accepts, LengthTable, Total, LiteralCount, DistanceCount, TooMany;
      CountsAre(table);
      AtDTree(rd.input, rd.Pos(), hist);
      ghost var lens := blens[..index];
      LengthsPlain(rd.input, rd.Pos(), hist, LiteralCount(table), DistanceCount(table), cl, lens, c, t);
      rd.DumpBits(t);
      blens, index := blens[index := c], index + 1;
      assert blens[..index] == lens + [c];
      AtDTree(rd.input, rd.Pos(), hist);
    }

    /** A repeat: of the length before, or of zero. */
    method ReadRepeat(rd: R.BitReader, r: Status, ghost hist: seq<byte>, t: nat, c: nat) returns (go: bool, r': Status)
      requires mode == DTree && index < Total(table)
      requires Ready(rd) && |hist| >= W.WSIZE
      requires HasTable() && HasLengths() && t <= 7 && 16 <= c <= 18 && ReadLength(rd.input, rd.Pos(), cl) == Read(c, t)
      modifies this`mode, this`blens, this`index, rd
      ensures Ready(rd)
      ensures Meaning(rd.input, rd.Pos(), hist) == old(Meaning(rd.input, rd.Pos(), hist))
      ensures rd.Pos() >= old(rd.Pos())
      ensures go ==> mode == DTree && (r' == r || r' == ZOk) && index > old(index)
      ensures !go ==> (mode == BadBlock && r' == ZDataError) || (mode == DTree && rd.n == 0 && (r' == r || r' == ZOk))
    {
      hide R.Holds, Meaning, Here, Rest, Field, Peek, Pow2, Lengths, ReadLength, Accepts, LengthTable, Repeat, Total, LiteralCount, DistanceCount, TooMany;
      CountsAre(table);
      AtDTree(rd.input, rd.Pos(), hist);
      var i := Extra(c);
      go, r' := Need(rd, t + i, r);
      if !go {
        AtDTree(rd.input, rd.Pos(), hist);
        return;
      }
      ghost var pos, lens := rd.Pos(), blens[..index];
      var j := TakeField(rd, t, i);
      j := AtLeast(c) + j;
      LengthsRepeat(rd.input, pos, hist, LiteralCount(table), DistanceCount(table), cl, lens, c, t, j, rd.Pos());
      go := RepeatLength(c, j, rd.input, rd.Pos(), hist);
      if !go {
        r' := ZDataError;
      }
    }

    /** Repeats the last length, or zero, `n` times. */
    method RepeatLength(c: nat, n: nat, ghost input: seq<byte>, ghost pos: nat, ghost hist: seq<byte>) returns (go: bool)
      requires mode == DTree && HasTable() && index < Total(table) && HasLengths() && n > 0 && |hist| >= W.WSIZE
      modifies this`mode, this`blens, this`index
      ensures Here(input, pos) && Meaning(input, pos, hist) ==
              Rest(input, last, var lens := old(blens[..index]);
                                if |lens| + n > Total(table) || (c == 16 && lens == []) then Bad(hist)
                                else Lengths(input, pos, hist, LiteralCount(table), DistanceCount(table), cl, lens + Repeat(if c == 16 then lens[|lens| - 1] else 0, n)))
      ensures if go then mode == DTree && index > old(index) else mode == BadBlock
    {
      hide Meaning, Here, Rest, Lengths, Accepts, LengthTable, Repeat, Total, LiteralCount, DistanceCount, TooMany;
      go := index + n <= Total(table) && !(c == 16 && index < 1);
      if !go {
        mode := BadBlock;
        RestIs(input, last, pos, hist);
        AtBadBlock(input, pos, hist);
        return;
      }
      FillLengths(if c == 16 then blens[index - 1] else 0, n);
      AtDTree(input, pos, hist);
    }

    /** Appends `n` lengths of value `c`. */
    method FillLengths(c: nat, n: nat)
      requires n > 0 && index + n <= |blens|
      requires c <= BMAX && forall i :: 0 <= i < index ==> blens[i] <= BMAX
      modifies this`blens, this`index
      ensures index == old(index) + n && |blens| == old(|blens|)
      ensures blens[..index] == old(blens[..index]) + Repeat(c, n)
      ensures forall i :: 0 <= i < index ==> blens[i] <= BMAX
    {
      var i, j := index, n;
      while j > 0
        invariant 0 <= j <= n && i == index + (n - j) && index == old(index) && |blens| == old(|blens|)
        invariant blens[..i] == old(blens[..index]) + Repeat(c, n - j)
        invariant forall l :: 0 <= l < i ==> blens[l] <= BMAX
      {
        ghost var was := blens[..i];
        blens := blens[i := c];
        i, j := i + 1, j - 1;
        assert blens[..i] == was + [c];
        assert Repeat(c, n - j) == Repeat(c, n - (j + 1)) + [c];
      }
      index := i;
    }

    /** DTREE, the loop. */
    method ReadLengths(rd: R.BitReader, r: Status, ghost hist: seq<byte>) returns (go: bool, r': Status)
      requires mode == DTree
      requires Ready(rd) && |hist| >= W.WSIZE
      modifies this`mode, this`blens, this`index, rd
      ensures Ready(rd)
      ensures Meaning(rd.input, rd.Pos(), hist) == old(Meaning(rd.input, rd.Pos(), hist))
      ensures rd.Pos() >= old(rd.Pos())
      ensures go ==> mode == DTree && (r' == r || r' == ZOk) && index == Total(table)
      ensures !go ==> (mode == BadBlock && r' == ZDataError) || (mode == DTree && rd.n == 0 && (r' == r || r' == ZOk))
    {
      hide R.Holds, Meaning, LengthTable, Accepts;
      r' := r;
      while index != Total(table)
        invariant Ready(rd)
        invariant mode == DTree && (r' == r || r' == ZOk)
        invariant Meaning(rd.input, rd.Pos(), hist) == old(Meaning(rd.input, rd.Pos(), hist))
        invariant rd.Pos() >= old(rd.Pos())
        decreases Total(table) - index
      {
        go, r' := ReadOneLength(rd, r', hist);
        if !go {
          return;
        }
      }
      go := true;
    }

    /** DTREE. */
    method StepDTree(rd: R.BitReader, r: Status, ghost hist: seq<byte>) returns (go: bool, r': Status)
      requires mode == DTree && HuftBuild.MANY <= hufts.Length
      requires Ready(rd) && |hist| >= W.WSIZE
      modifies this, hufts, rd
      ensures Ready(rd)
      ensures codes == old(codes) || fresh(codes)
      ensures Meaning(rd.input, rd.Pos(), hist) == old(Meaning(rd.input, rd.Pos(), hist))
      ensures rd.Pos() >= old(rd.Pos())
      ensures go ==> mode == InCodes && (r' == r || r' == ZOk)
      ensures !go ==> (mode == BadBlock && r' == ZDataError) || (mode == DTree && rd.n == 0 && (r' == r || r' == ZOk)) || (mode == DTree && r' == ZMemError && Meaning(rd.input, rd.Pos(), hist).Bad?)
    {
      hide R.Holds, Meaning, Here, Rest, Codes, Lengths, Accepts, AcceptsPair, LengthTable, C.TablesOK;
      go, r' := ReadLengths(rd, r, hist);
      if !go {
        return;
      }
      AtDTree(rd.input, rd.Pos(), hist);
      CountsAre(table);
      var nl := LiteralCount(table);
      LengthsEnd(rd.input, rd.Pos(), hist, nl, DistanceCount(table), cl, blens[..index]);
      RestIs(rd.input, last, rd.Pos(), hist);
      assert blens[..index] == blens;
      var t, tables := TreesDynamic(blens[..nl], blens[nl..], hufts);
      if t == ZMemError {
        AtDTree(rd.input, rd.Pos(), hist);
        return false, ZMemError;
      } else if t != ZOk {
        mode := BadBlock;
        AtBadBlock(rd.input, rd.Pos(), hist);
        return false, ZDataError;
      }
      OpenCodes(tables, rd.input, rd.Pos(), hist);
    }

    // ----- codes and the end ----------------------------------------------------------------------

    /** CODES. */
    method StepCodes(rd: R.BitReader, win: W.Window, r: Status) returns (go: bool, r': Status)
      requires Valid(rd, win) && mode == InCodes && (r == ZOk || r == ZBufError)
      modifies this`mode, codes, rd, win, win.buf
      ensures Valid(rd, win) && old(win.output) <= win.output
      ensures RestOf(rd, win) == old(RestOf(rd, win))
      ensures rd.Pos() >= old(rd.Pos())
      ensures go ==> (mode == Type || mode == Dry) && r' == ZOk
      ensures !go ==> mode == InCodes && Left(rd, win, r')
    {
      hide R.Holds, W.Mirrors, Meaning, Here, Rest, Blocks, Codes, C.TablesOK;
      AtInCodes(rd.input, rd.Pos(), win.hist);
      r' := codes.Run(rd, win, r);
      go := r' == ZStreamEnd;
      if go {
        r' := ZOk;
        mode := if last then Dry else Type;
        AtNext(rd.input, rd.Pos(), win.hist);
      } else {
        AtInCodes(rd.input, rd.Pos(), win.hist);
      }
    }

    /** DRY: everything must be delivered before the end is reported. */
    method StepDry(rd: R.BitReader, win: W.Window, r: Status) returns (go: bool, r': Status)
      requires Valid(rd, win) && mode == Dry
      modifies this`mode, win
      ensures Valid(rd, win) && old(win.output) <= win.output
      ensures RestOf(rd, win) == old(RestOf(rd, win))
      ensures r' == r || r' == ZOk
      ensures if go then mode == Finished else mode == Dry && win.availOut == 0
    {
      hide R.Holds, W.Mirrors, Meaning, Here;
      AtEnd(rd.input, rd.Pos(), win.hist);
      r' := win.Flush(r);
      go := win.read == win.write;
      if go {
        mode := Finished;
      }
      AtEnd(rd.input, rd.Pos(), win.hist);
    }

    /** Modes are numbered so that every step either reads a bit or goes down. */
    ghost function Rank(): (n: nat)
      reads this
    {
      match mode
      case Table => 5
      case BTree => 4
      case DTree => 3
      case InCodes => 2
      case Type => 1
      case Lens => 1
      case Stored => 1
      case Dry => 1
      case Finished => 0
      case BadBlock => 0
    }

    /** Why it left: at the end, on bad data, for want of table space (on bad data too, see `Run`), of input or of output space. */
    ghost predicate Left(rd: R.BitReader, win: W.Window, r: Status)
      reads this, codes, rd, win
    {
      match r
      case ZStreamEnd => mode == Finished
      case ZDataError => mode == BadBlock || (mode == InCodes && codes != null && codes.mode == C.BadCode)
      case ZMemError => mode == DTree
      case _ => mode != Finished && mode != BadBlock && (rd.n == 0 || win.availOut == 0)
    }

    /** One turn of the switch; `go` is false when it leaves. */
    method Step(rd: R.BitReader, win: W.Window, r: Status) returns (go: bool, r': Status)
      requires Valid(rd, win) && (r == ZOk || r == ZBufError)
      modifies this, hufts, fixedMem, codes, rd, win, win.buf
      ensures Valid(rd, win) && old(win.output) <= win.output
      ensures codes == old(codes) || fresh(codes)
      ensures RestOf(rd, win) == old(RestOf(rd, win))
      ensures rd.Pos() >= old(rd.Pos())
      ensures go ==> (rd.Pos() > old(rd.Pos()) || Rank() < old(Rank())) && (r' == ZOk || r' == ZBufError)
      ensures !go ==> Rank() <= old(Rank()) && Left(rd, win, r') && (r' == ZMemError ==> RestOf(rd, win).Bad?)
    {
      hide R.Holds, W.Mirrors, Meaning, Here;
      match mode {
        case Type => go, r' := StepType(rd, r, win.hist);
        case Lens => go, r' := StepLens(rd, r, win.hist);
        case Stored => go, r' := StepStored(rd, win, r);
        case Table => go, r' := StepTable(rd, r, win.hist);
        case BTree => go, r' := StepBTree(rd, r, win.hist);
        case DTree => go, r' := StepDTree(rd, r, win.hist);
        case InCodes => go, r' := StepCodes(rd, win, r);
        case Dry => go, r' := StepDry(rd, win, r);
        case Finished => go, r' := false, ZStreamEnd;
        case BadBlock => go, r' := false, ZDataError;
      }
    }

    /**
      `inflate_blocks`: goes on until the stream ends, the data is bad, or input or output space runs
      out.  What the rest of the stream leads to is the same before and after, however it stops.
     */
    method Run(rd: R.BitReader, win: W.Window, r: Status) returns (r': Status)
      requires Valid(rd, win) && (r == ZOk || r == ZBufError)
      modifies this, hufts, fixedMem, codes, rd, win, win.buf
      ensures Valid(rd, win) && old(win.output) <= win.output
      ensures codes == old(codes) || fresh(codes)
      ensures RestOf(rd, win) == old(RestOf(rd, win))
      ensures rd.Pos() >= old(rd.Pos())
      ensures Left(rd, win, r') && (r' == ZMemError ==> RestOf(rd, win).Bad?)
    {
      hide Meaning, R.Holds, W.Mirrors, Here;
      r' := r;
      var go := true;
      while go
        invariant Valid(rd, win) && old(win.output) <= win.output
        invariant codes == old(codes) || fresh(codes)
        invariant RestOf(rd, win) == old(RestOf(rd, win))
        invariant rd.Pos() >= old(rd.Pos())
        invariant if go then r' == ZOk || r' == ZBufError else Left(rd, win, r') && (r' == ZMemError ==> RestOf(rd, win).Bad?)
        decreases 8 * |rd.input| - rd.Pos(), Rank(), go
      {
        go, r' := Step(rd, win, r');
      }
      r' := Leave(rd, win, r');
    }

    /** LEAVE. */
    method Leave(rd: R.BitReader, win: W.Window, r: Status) returns (r': Status)
      requires Valid(rd, win) && Left(rd, win, r)
      modifies win
      ensures Valid(rd, win) && Left(rd, win, r') && old(win.output) <= win.output && (r' == ZMemError ==> r == ZMemError)
      ensures RestOf(rd, win) == old(RestOf(rd, win))
    {
      hide Meaning, R.Holds, W.Mirrors, Here;
      r' := win.Flush(r);
    }
  }

  lemma {:induction false} SentIsSent(blens: seq<nat>, cl: seq<nat>, index: nat)
    requires Sent(blens, cl, index)
    ensures |cl| == 19 && |blens| >= 19 && index <= 19
    ensures forall i :: 0 <= i < 19 ==> cl[i] <= 7
  {
  }

  lemma {:induction false} TableWidth(tbl: seq<Huft>, tb: nat, bb: nat, cl: seq<nat>)
    requires Accepts(cl) && LengthTable(tbl, tb, bb, cl)
    ensures bb <= 7
  {
    hide Accepts;
  }
}
