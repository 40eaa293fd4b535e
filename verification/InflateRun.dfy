/**
  Whole runs of the decoder: input and output space are handed over in any pieces.

  `Inflate` is the theorem of this part.  Whatever the pieces, what has been delivered is
  a prefix of what RFC 1951 says the stream means, and is all of it when the end is reported.
 */
module InflateRun {
  import opened Bits
  import opened Canonical
  import opened Deflate
  import opened ZStatus
  import Adler32
  import Strict
  import E = Encoder
  import Decoder
  import C = InflateCodes
  import B = InflateBlocks
  import W = Window
  import R = BitReader

  // ----- what was in the window before the stream does not matter ----------------------------

  /** The same ending, after `before`. */
  function After(before: seq<byte>, e: Ending): (r: Ending) {
    match e
    case Done(pos, hist) => Done(pos, before + hist)
    case Bad(hist) => Bad(before + hist)
    case Short(hist) => Short(before + hist)
  }

  lemma {:induction false} CopyAfter(before: seq<byte>, hist: seq<byte>, dist: nat, len: nat)
    requires 1 <= dist <= |hist|
    ensures Copy(before + hist, dist, len) == before + Copy(hist, dist, len)
    decreases len
  {
    if len > 0 {
      var x := hist[|hist| - dist];
      assert (before + hist)[|before + hist| - dist] == x;
      assert (before + hist) + [x] == before + (hist + [x]);
      CopyAfter(before, hist + [x], dist, len - 1);
    }
  }

  /** A block that refers only to its own stream's output means the same after anything. */
  lemma {:induction false} CodesAfter(before: seq<byte>, input: seq<byte>, pos: nat, hist: seq<byte>, ll: seq<nat>, dl: seq<nat>)
    ensures Codes(input, pos, hist, ll, dl).Bad? || Codes(input, pos, before + hist, ll, dl) == After(before, Codes(input, pos, hist, ll, dl))
    decreases 8 * |input| - pos, 1
  {
    hide ReadSymbol;
    match ReadSymbol(input, pos, ll)
    case Truncated =>
    case Invalid =>
    case Read(s, used) =>
      if s < END_OF_BLOCK {
        assert (before + hist) + [s as byte] == before + (hist + [s as byte]);
        CodesAfter(before, input, pos + used, hist + [s as byte], ll, dl);
      } else if END_OF_BLOCK < s < NO_LENGTH {
        LengthAfter(before, input, pos + used, hist, ll, dl, LENGTH_BASE[s - 257], LENGTH_EXTRA[s - 257]);
      }
  }

  lemma {:induction false} LengthAfter(before: seq<byte>, input: seq<byte>, pos: nat, hist: seq<byte>, ll: seq<nat>, dl: seq<nat>, base: nat, extra: nat)
    ensures LengthExtra(input, pos, hist, ll, dl, base, extra).Bad?
         || LengthExtra(input, pos, before + hist, ll, dl, base, extra) == After(before, LengthExtra(input, pos, hist, ll, dl, base, extra))
    decreases 8 * |input| - pos, 4
  {
    hide Field, Distance;
    if pos + extra <= 8 * |input| {
      DistanceAfter(before, input, pos + extra, hist, ll, dl, base + Field(input, pos, extra));
    }
  }

  lemma {:induction false} DistanceAfter(before: seq<byte>, input: seq<byte>, pos: nat, hist: seq<byte>, ll: seq<nat>, dl: seq<nat>, len: nat)
    ensures Distance(input, pos, hist, ll, dl, len).Bad?
         || Distance(input, pos, before + hist, ll, dl, len) == After(before, Distance(input, pos, hist, ll, dl, len))
    decreases 8 * |input| - pos, 3
  {
    hide ReadSymbol, DistanceExtra;
    match ReadSymbol(input, pos, dl)
    case Truncated =>
    case Invalid =>
    case Read(s, used) =>
      if s < |DIST_BASE| {
        DistanceExtraAfter(before, input, pos + used, hist, ll, dl, len, DIST_BASE[s], DIST_EXTRA[s]);
      }
  }

  lemma {:induction false} DistanceExtraAfter(before: seq<byte>, input: seq<byte>, pos: nat, hist: seq<byte>, ll: seq<nat>, dl: seq<nat>, len: nat, base: nat, extra: nat)
    ensures DistanceExtra(input, pos, hist, ll, dl, len, base, extra).Bad?
         || DistanceExtra(input, pos, before + hist, ll, dl, len, base, extra) == After(before, DistanceExtra(input, pos, hist, ll, dl, len, base, extra))
    decreases 8 * |input| - pos, 2
  {
    hide Field, Codes;
    var dist := base + Field(input, pos, extra);
    if pos + extra <= 8 * |input| && 1 <= dist <= |hist| {
      CopyAfter(before, hist, dist, len);
      CodesAfter(before, input, pos + extra, Copy(hist, dist, len), ll, dl);
    }
  }

  lemma {:induction false} LengthsAfter(before: seq<byte>, input: seq<byte>, pos: nat, hist: seq<byte>, nl: nat, nd: nat, cl: seq<nat>, lens: seq<nat>)
    requires Accepts(cl)
    ensures Lengths(input, pos, hist, nl, nd, cl, lens).Bad?
         || Lengths(input, pos, before + hist, nl, nd, cl, lens) == After(before, Lengths(input, pos, hist, nl, nd, cl, lens))
    decreases 8 * |input| - pos
  {
    hide Accepts, AcceptsPair, ReadLength, Codes, Field, Repeat;
    if |lens| >= nl + nd {
      if |lens| == nl + nd {
        CodesAfter(before, input, pos, hist, lens[..nl], lens[nl..]);
      }
    } else {
      match ReadLength(input, pos, cl)
      case Truncated =>
      case Invalid =>
      case Read(c, used) =>
        if c < 16 {
          LengthsAfter(before, input, pos + used, hist, nl, nd, cl, lens + [c]);
        } else {
          var extra, least := if c == 18 then 7 else c - 14, if c == 18 then 11 else 3;
          var n := least + Field(input, pos + used, extra);
          if pos + used + extra <= 8 * |input| && |lens| + n <= nl + nd && !(c == 16 && lens == []) {
            var v := if c == 16 then lens[|lens| - 1] else 0;
            LengthsAfter(before, input, pos + used + extra, hist, nl, nd, cl, lens + Repeat(v, n));
          }
        }
    }
  }

  lemma {:induction false} BitLengthsAfter(before: seq<byte>, input: seq<byte>, pos: nat, hist: seq<byte>, nl: nat, nd: nat, nc: nat, index: nat, cl: seq<nat>)
    requires |cl| == 19 && index <= nc <= 19
    ensures BitLengths(input, pos, hist, nl, nd, nc, index, cl).Bad?
         || BitLengths(input, pos, before + hist, nl, nd, nc, index, cl) == After(before, BitLengths(input, pos, hist, nl, nd, nc, index, cl))
    decreases nc - index
  {
    hide Accepts, Lengths, Field;
    if index < nc {
      B.OrderIsPermutation();
      BitLengthsAfter(before, input, pos + 3, hist, nl, nd, nc, index + 1, cl[ORDER[index] := Field(input, pos, 3)]);
    } else if Accepts(cl) {
      LengthsAfter(before, input, pos, hist, nl, nd, cl, []);
    }
  }

  lemma {:induction false} DynamicAfter(before: seq<byte>, input: seq<byte>, pos: nat, hist: seq<byte>)
    ensures Dynamic(input, pos, hist).Bad? || Dynamic(input, pos, before + hist) == After(before, Dynamic(input, pos, hist))
  {
    hide BitLengths, Dynamic, Field;
    if pos + 14 <= 8 * |input| {
      var table := Field(input, pos, 14);
      B.DynamicIs(input, pos, hist, table);
      B.DynamicIs(input, pos, before + hist, table);
      B.CountsAre(table);
      if !B.TooMany(table) {
        BitLengthsAfter(before, input, pos + 14, hist, B.LiteralCount(table), B.DistanceCount(table), B.LengthCount(table), 0, Repeat(0, 19));
      }
    } else {
      DynamicShort(input, pos, hist);
      DynamicShort(input, pos, before + hist);
    }
  }

  lemma {:induction false} DynamicShort(input: seq<byte>, pos: nat, hist: seq<byte>)
    requires pos + 14 > 8 * |input|
    ensures Dynamic(input, pos, hist) == Short(hist)
  {
  }

  lemma {:induction false} StoredAfter(before: seq<byte>, input: seq<byte>, p: nat, hist: seq<byte>, left: nat)
    requires p <= |input|
    ensures StoredBytes(input, p, before + hist, left) == After(before, StoredBytes(input, p, hist, left))
  {
    if p + left > |input| {
      assert (before + hist) + input[p..] == before + (hist + input[p..]);
    } else {
      assert (before + hist) + input[p..p + left] == before + (hist + input[p..p + left]);
    }
  }

  lemma {:induction false} StoredLengthAfter(before: seq<byte>, input: seq<byte>, pos: nat, hist: seq<byte>)
    ensures StoredLength(input, pos, hist).Bad? || StoredLength(input, pos, before + hist) == After(before, StoredLength(input, pos, hist))
  {
    hide StoredBytes, Field;
    if pos + 32 <= 8 * |input| {
      StoredAfter(before, input, (pos + 32) / 8, hist, Field(input, pos, 16));
    }
  }

  lemma {:induction false} BlockAfter(before: seq<byte>, input: seq<byte>, pos: nat, hist: seq<byte>, kind: nat)
    ensures Block(input, pos, hist, kind).Bad? || Block(input, pos, before + hist, kind) == After(before, Block(input, pos, hist, kind))
  {
    hide StoredLength, Codes, Dynamic;
    match kind
    case 0 => StoredLengthAfter(before, input, ByteBoundary(pos), hist);
    case 1 => CodesAfter(before, input, pos, hist, FIXED_LITERALS, FIXED_DISTANCES);
    case 2 => DynamicAfter(before, input, pos, hist);
    case _ =>
  }

  /** A stream that never refers back past its own beginning means the same, whatever was there before it. */
  lemma {:induction false} BlocksAfter(before: seq<byte>, input: seq<byte>, pos: nat, hist: seq<byte>)
    ensures Blocks(input, pos, hist).Bad? || Blocks(input, pos, before + hist) == After(before, Blocks(input, pos, hist))
    decreases 8 * |input| - pos
  {
    hide Block, Field;
    if pos + 3 <= 8 * |input| {
      var kind := Field(input, pos + 1, 2);
      BlockAfter(before, input, pos + 3, hist, kind);
      var block := Block(input, pos + 3, hist, kind);
      if block.Done? && Field(input, pos, 1) == 0 {
        BlocksAfter(before, input, block.pos, block.hist);
      }
    }
  }

  // ----- runs --------------------------------------------------------------------------------

  /** What the caller hands over before one call. */
  datatype Grant = Grant(input: nat, output: nat)

  /** What a run of calls leaves: `used` bytes were taken, of `given`, and there was output space to spare or not. */
  datatype Outcome = Outcome(status: Status, output: seq<byte>, check: nat, used: nat, given: nat, spare: nat)

  /** What may be said of a run, given how the stream ends. */
  ghost predicate Agrees(o: Outcome, input: seq<byte>, before: seq<byte>, e: Ending) {
    && before + o.output <= e.hist
    && (o.status == ZStreamEnd ==> e.Done? && e.hist == before + o.output && o.used == (e.pos + 7) / 8)
    && (o.status == ZDataError || o.status == ZMemError ==> e.Bad?)
    && ((o.status == ZOk || o.status == ZBufError) && o.given == |input| && o.spare > 0 ==> !e.Done? || e.pos + 32 > 8 * |input|)
  }

  lemma {:induction false} LeftAgrees(s: B.BlocksState, rd: R.BitReader, win: W.Window, memory: seq<byte>, o: Outcome)
    requires s.Valid(rd, win) && s.Left(rd, win, o.status) && (o.status == ZMemError ==> s.RestOf(rd, win).Bad?)
    requires memory <= s.RestOf(rd, win).hist && |memory| == W.WSIZE && win.output == o.output
    requires o.used == rd.p && o.given == rd.p + rd.n && o.spare == win.availOut
    ensures Agrees(o, rd.input, memory, s.RestOf(rd, win))
  {
    hide B.BlocksState.Meaning, B.BlocksState.Here, R.Holds, W.Mirrors;
    s.EndsAhead(rd.input, rd.Pos(), win.hist);
    assert memory + o.output <= win.hist by {
      assert win.hist[..W.WSIZE] == memory;
      assert win.hist[..W.WSIZE + |o.output|] == memory + o.output;
    }
    if o.status == ZStreamEnd {
      s.AtEnd(rd.input, rd.Pos(), win.hist);
      assert win.hist == memory + o.output;
    } else if o.status == ZDataError {
      BadIsBad(s, rd, win);
    }
  }

  lemma {:induction false} BadIsBad(s: B.BlocksState, rd: R.BitReader, win: W.Window)
    requires s.Valid(rd, win) && s.Left(rd, win, ZDataError)
    ensures s.RestOf(rd, win).Bad?
  {
    hide B.BlocksState.Meaning, B.BlocksState.Here, R.Holds, W.Mirrors, Rest;
    if s.mode == B.BadBlock {
      s.AtBadBlock(rd.input, rd.Pos(), win.hist);
    } else {
      s.AtInCodes(rd.input, rd.Pos(), win.hist);
      B.RestIs(rd.input, s.last, rd.Pos(), win.hist);
    }
  }

  /**
    A run: before each call the caller hands over some more input and an output area, both of any
    size.  It stops when the decoder reports the end or an error.  `memory` and `junk` are what the
    window and other allocated memory hold to begin with.
   */
  method Inflate(input: seq<byte>, grants: seq<Grant>, memory: seq<byte>, junk: (nat, nat) -> nat, checked: bool) returns (o: Outcome)
    requires |memory| == W.WSIZE
    ensures Agrees(o, input, memory, Blocks(input, 0, memory))
    ensures Blocks(input, 0, []).Bad? || Agrees(o, input, [], Blocks(input, 0, []))
    ensures Strict.StrictBlocks(input, 0, []).Bad? || Agrees(o, input, [], Strict.StrictBlocks(input, 0, []))
    ensures forall ps :: E.Written(input, 0, [], ps) ==> Agrees(o, input, [], Done(|E.StreamBits(ps, 0, [])|, E.StreamSaid(ps, [])))
    ensures o.status == ZStreamEnd ==> Blocks(input, 0, []).Bad? || exists ps :: E.Written(input, 0, [], ps)
    ensures checked ==> o.check == Adler32.Checksum(o.output)
  {
    hide E.Written, E.StreamSaid, E.StreamBits, Blocks, Strict.StrictBlocks, Agrees, Adler32.Checksum;
    o := Calls(input, grants, memory, junk, checked);
    OwnHistory(o, input, memory);
    Strict.BlocksSame(input, 0, []);
    OnWritten(o, input);
  }

  /** The calls of a run. */
  method Calls(input: seq<byte>, grants: seq<Grant>, memory: seq<byte>, junk: (nat, nat) -> nat, checked: bool) returns (o: Outcome)
    requires |memory| == W.WSIZE
    ensures Agrees(o, input, memory, Blocks(input, 0, memory))
    ensures checked ==> o.check == Adler32.Checksum(o.output)
  {
    hide Blocks, Strict.StrictBlocks, Agrees, B.BlocksState.Meaning, B.BlocksState.Here, R.Holds, W.Mirrors, Adler32.Checksum;
    var rd := new R.BitReader(input);
    var win := new W.Window(memory, checked);
    var s := new B.BlocksState(junk);
    ghost var whole := Blocks(input, 0, memory);
    s.AtType(input, 0, memory);
    var r := ZOk;
    o := Outcome(r, [], win.check, 0, 0, 0);
    NothingYet(o, input, memory);
    for i := 0 to |grants|
      invariant s.Valid(rd, win) && rd.input == input && win.checked == checked
      invariant fresh(s) && fresh(rd) && fresh(win) && fresh(win.buf) && fresh(s.hufts) && fresh(s.fixedMem) && (s.codes != null ==> fresh(s.codes))
      invariant s.RestOf(rd, win) == whole
      invariant Agrees(o, input, memory, whole) && o.output == win.output && o.check == win.check
    {
      var g := grants[i];
      rd.Provide(Least(g.input, |input| - rd.p - rd.n));
      win.Provide(g.output);
      r := s.Run(rd, win, ZBufError);
      o := Outcome(r, win.output, win.check, rd.p, rd.p + rd.n, win.availOut);
      LeftAgrees(s, rd, win, memory, o);
      if r != ZOk && r != ZBufError {
        break;
      }
    }
  }

  /** A stream that was written is read to its end, and one read to its end was written. */
  lemma {:induction false} OnWritten(o: Outcome, input: seq<byte>)
    requires Blocks(input, 0, []).Bad? || Agrees(o, input, [], Blocks(input, 0, []))
    ensures forall ps :: E.Written(input, 0, [], ps) ==> Agrees(o, input, [], Done(|E.StreamBits(ps, 0, [])|, E.StreamSaid(ps, [])))
    ensures o.status == ZStreamEnd ==> Blocks(input, 0, []).Bad? || exists ps :: E.Written(input, 0, [], ps)
  {
    Decoder.ReadIffWritten(input, 0, []);
    hide Blocks, E.GoodStream, E.StreamBits, E.StreamSaid, E.At;
  }

  lemma {:induction false} NothingYet(o: Outcome, input: seq<byte>, memory: seq<byte>)
    requires o.status == ZOk && o.output == [] && o.spare == 0
    ensures Agrees(o, input, memory, Blocks(input, 0, memory))
  {
    hide Blocks;
    assert memory + [] == memory;
  }

  /** What holds of the stream in a window full of other things holds of the stream on its own. */
  lemma {:induction false} OwnHistory(o: Outcome, input: seq<byte>, memory: seq<byte>)
    requires Agrees(o, input, memory, Blocks(input, 0, memory))
    ensures Blocks(input, 0, []).Bad? || Agrees(o, input, [], Blocks(input, 0, []))
  {
    hide Blocks;
    BlocksAfter(memory, input, 0, []);
    assert memory + [] == memory && [] + o.output == o.output;
    var own := Blocks(input, 0, []);
    if !own.Bad? {
      var all := memory + own.hist;
      assert all[|memory|..] == own.hist && (memory + o.output)[|memory|..] == o.output;
      assert all[..|memory + o.output|] == memory + o.output;
      assert own.hist[..|o.output|] == o.output;
    }
  }
}
