/**
  RFC 1951 as a recursive function: what a DEFLATE stream means.

  `hist` is everything the stream may refer back to: what was there before the
  stream began, followed by all output so far.  Positions are bit positions.
 */
module Deflate {
  import opened Bits
  import opened Canonical
  import opened HuftTables

  // ----- alphabets ---------------------------------------------------------------

  const LENGTH_BASE: seq<nat> := [
    3, 4, 5, 6, 7, 8, 9, 10, 11, 13, 15, 17, 19, 23, 27, 31,
    35, 43, 51, 59, 67, 83, 99, 115, 131, 163, 195, 227, 258, 0, 0]
  const LENGTH_EXTRA: seq<nat> := [
    0, 0, 0, 0, 0, 0, 0, 0, 1, 1, 1, 1, 2, 2, 2, 2,
    3, 3, 3, 3, 4, 4, 4, 4, 5, 5, 5, 5, 0, 112, 112]
  const DIST_BASE: seq<nat> := [
    1, 2, 3, 4, 5, 7, 9, 13, 17, 25, 33, 49, 65, 97, 129, 193,
    257, 385, 513, 769, 1025, 1537, 2049, 3073, 4097, 6145,
    8193, 12289, 16385, 24577]
  const DIST_EXTRA: seq<nat> := [
    0, 0, 0, 0, 1, 1, 2, 2, 3, 3, 4, 4, 5, 5, 6, 6,
    7, 7, 8, 8, 9, 9, 10, 10, 11, 11, 12, 12, 13, 13]
  /** The order in which the lengths of the code-length code are sent. */
  const ORDER: seq<nat> := [16, 17, 18, 0, 8, 7, 9, 6, 10, 5, 11, 4, 12, 3, 13, 2, 14, 1, 15]

  const LITERALS := Alphabet(257, LENGTH_BASE, LENGTH_EXTRA)
  const DISTANCES := Alphabet(0, DIST_BASE, DIST_EXTRA)
  const CODELENGTHS := Alphabet(19, [], [])

  const END_OF_BLOCK: nat := 256
  /** The first literal/length symbol that stands for nothing. */
  const NO_LENGTH: nat := 286

  lemma {:induction false} AlphabetsAreValid()
    ensures ValidAlphabet(LITERALS, 288) && ValidAlphabet(DISTANCES, 30) && ValidAlphabet(CODELENGTHS, 19)
  {
    hide LENGTH_BASE, LENGTH_EXTRA, DIST_BASE, DIST_EXTRA;
    LiteralsAreValid();
    DistancesAreValid();
  }

  lemma {:induction false} LiteralsAreValid()
    ensures ValidAlphabet(LITERALS, 288)
  {
  }

  lemma {:induction false} DistancesAreValid()
    ensures ValidAlphabet(DISTANCES, 30)
  {
  }

  // ----- symbols -------------------------------------------------------------------

  datatype Sym = Sym(value: nat) | NoSym

  /** The symbol whose code starts the bits. */
  ghost function Symbol(lens: seq<nat>, bits: seq<bool>): (r: Sym)
    ensures r.Sym? ==> r.value < |lens| && StartsWith(lens, r.value, bits)
    ensures r.NoSym? ==> forall sym | 0 <= sym < |lens| :: !StartsWith(lens, sym, bits)
  {
    if exists sym :: 0 <= sym < |lens| && StartsWith(lens, sym, bits) then
      var sym :| 0 <= sym < |lens| && StartsWith(lens, sym, bits);
      Sym(sym)
    else NoSym
  }

  function Greatest(lens: seq<nat>): (g: nat)
    ensures forall i :: 0 <= i < |lens| ==> lens[i] <= g
    ensures lens != [] ==> g in lens
  {
    if lens == [] then 0
    else
      var n := |lens| - 1;
      var g := Greatest(lens[..n]);
      if lens[n] >= g then lens[n] else g
  }

  /** A symbol read at `pos`, how many bits it took, or that the stream ends inside it. */
  datatype Read = Read(value: nat, used: nat) | Invalid | Truncated

  ghost function ReadSymbol(input: seq<byte>, pos: nat, lens: seq<nat>): (r: Read)
    ensures r.Read? ==> r.value < |lens| && r.used == lens[r.value] > 0 && pos + r.used <= 8 * |input|
  {
    match Symbol(lens, Peek(input, pos, BMAX))
    case Sym(s) => if pos + lens[s] > 8 * |input| then Truncated else Read(s, lens[s])
    case NoSym => if pos + Greatest(lens) > 8 * |input| then Truncated else Invalid
  }

  // ----- output ----------------------------------------------------------------------

  /** Appends `len` bytes, each a copy of the one `dist` before it. */
  function Copy(hist: seq<byte>, dist: nat, len: nat): (r: seq<byte>)
    requires 1 <= dist <= |hist|
    ensures |r| == |hist| + len && hist <= r
    decreases len
  {
    if len == 0 then hist else Copy(hist + [hist[|hist| - dist]], dist, len - 1)
  }

  /** How a stream, or one block of it, ends: properly, with bad data, or by running out of input. */
  datatype Ending = Done(pos: nat, hist: seq<byte>) | Bad(hist: seq<byte>) | Short(hist: seq<byte>)

  // ----- compressed blocks --------------------------------------------------------------

  /** Section 3.2.3: literals and length/distance pairs up to the end-of-block symbol. */
  ghost function Codes(input: seq<byte>, pos: nat, hist: seq<byte>, ll: seq<nat>, dl: seq<nat>): (r: Ending)
    ensures r.Done? ==> pos < r.pos <= 8 * |input|
    ensures hist <= r.hist
    decreases 8 * |input| - pos, 1
  {
    match ReadSymbol(input, pos, ll)
    case Truncated => Short(hist)
    case Invalid => Bad(hist)
    case Read(s, used) =>
      if s < END_OF_BLOCK then Codes(input, pos + used, hist + [s as byte], ll, dl)
      else if s == END_OF_BLOCK then Done(pos + used, hist)
      else if s >= NO_LENGTH then Bad(hist)
      else LengthExtra(input, pos + used, hist, ll, dl, LENGTH_BASE[s - 257], LENGTH_EXTRA[s - 257])
  }

  ghost function LengthExtra(input: seq<byte>, pos: nat, hist: seq<byte>, ll: seq<nat>, dl: seq<nat>, base: nat, extra: nat): (r: Ending)
    ensures r.Done? ==> pos < r.pos <= 8 * |input|
    ensures hist <= r.hist
    decreases 8 * |input| - pos, 4
  {
    if pos + extra > 8 * |input| then Short(hist)
    else Distance(input, pos + extra, hist, ll, dl, base + Field(input, pos, extra))
  }

  ghost function Distance(input: seq<byte>, pos: nat, hist: seq<byte>, ll: seq<nat>, dl: seq<nat>, len: nat): (r: Ending)
    ensures r.Done? ==> pos < r.pos <= 8 * |input|
    ensures hist <= r.hist
    decreases 8 * |input| - pos, 3
  {
    match ReadSymbol(input, pos, dl)
    case Truncated => Short(hist)
    case Invalid => Bad(hist)
    case Read(s, used) =>
      if s >= |DIST_BASE| then Bad(hist)
      else DistanceExtra(input, pos + used, hist, ll, dl, len, DIST_BASE[s], DIST_EXTRA[s])
  }

  ghost function DistanceExtra(input: seq<byte>, pos: nat, hist: seq<byte>, ll: seq<nat>, dl: seq<nat>, len: nat, base: nat, extra: nat): (r: Ending)
    ensures r.Done? ==> pos < r.pos <= 8 * |input|
    ensures hist <= r.hist
    decreases 8 * |input| - pos, 2
  {
    var dist := base + Field(input, pos, extra);
    if pos + extra > 8 * |input| then Short(hist)
    else if dist == 0 || dist > |hist| then Bad(hist)
    else Codes(input, pos + extra, Copy(hist, dist, len), ll, dl)
  }

  // ----- dynamic blocks -----------------------------------------------------------------

  /** Whether the lengths make a code that is accepted: complete, or a single code of one bit. */
  ghost predicate Accepts(lens: seq<nat>) {
    && ValidLengths(lens)
    && (exists i :: 0 <= i < |lens| && lens[i] > 0)
    && (Kraft(lens) == Whole || (Kraft(lens) < Whole && Greatest(lens) == 1))
  }

  ghost predicate AcceptsPair(ll: seq<nat>, dl: seq<nat>) {
    && Accepts(ll)
    && (Accepts(dl) || (|ll| == 257 && forall i :: 0 <= i < |dl| ==> dl[i] == 0))
  }

  /** Section 3.2.7: the number of codes of each kind, 5 + 5 + 4 bits. */
  ghost function Dynamic(input: seq<byte>, pos: nat, hist: seq<byte>): (r: Ending)
    ensures r.Done? ==> pos < r.pos <= 8 * |input|
    ensures hist <= r.hist
  {
    if pos + 14 > 8 * |input| then Short(hist)
    else
      var nl, nd, nc := Field(input, pos, 5), Field(input, pos + 5, 5), Field(input, pos + 10, 4);
      if nl > 29 || nd > 29 then Bad(hist)
      else BitLengths(input, pos + 14, hist, 257 + nl, 1 + nd, 4 + nc, 0, seq(19, _ => 0))
  }

  /** The lengths of the code-length code, three bits each, in their own order. */
  ghost function BitLengths(input: seq<byte>, pos: nat, hist: seq<byte>, nl: nat, nd: nat, nc: nat, index: nat, cl: seq<nat>): (r: Ending)
    requires |cl| == 19 && index <= nc <= 19
    ensures r.Done? ==> pos < r.pos <= 8 * |input|
    ensures hist <= r.hist
    decreases nc - index
  {
    if index < nc then
      if pos + 3 > 8 * |input| then Short(hist)
      else BitLengths(input, pos + 3, hist, nl, nd, nc, index + 1, cl[ORDER[index] := Field(input, pos, 3)])
    else if !Accepts(cl) then Bad(hist)
    else Lengths(input, pos, hist, nl, nd, cl, [])
  }

  /** A symbol of the code-length code.  Where a single one-bit code is accepted, either bit stands for it. */
  ghost function ReadLength(input: seq<byte>, pos: nat, cl: seq<nat>): (r: Read)
    requires Accepts(cl)
    ensures r.Read? ==> r.value < |cl| && r.used > 0 && pos + r.used <= 8 * |input|
  {
    match ReadSymbol(input, pos, cl)
    case Read(s, used) => Read(s, used)
    case Truncated => Truncated
    case Invalid => Read(Only(cl), Greatest(cl))
  }

  /** The last symbol of the greatest length. */
  ghost function Only(cl: seq<nat>): (s: nat)
    requires Accepts(cl)
    ensures s < |cl|
  {
    MaxLenCount(cl, Greatest(cl));
    NthSym(cl, Greatest(cl), Count(cl, Greatest(cl)) - 1)
  }

  /** The literal/length and distance code lengths, as one run with repeats across the boundary. */
  ghost function Lengths(input: seq<byte>, pos: nat, hist: seq<byte>, nl: nat, nd: nat, cl: seq<nat>, lens: seq<nat>): (r: Ending)
    requires Accepts(cl)
    ensures r.Done? ==> pos < r.pos <= 8 * |input|
    ensures hist <= r.hist
    decreases 8 * |input| - pos
  {
    if |lens| >= nl + nd then
      if |lens| > nl + nd || !AcceptsPair(lens[..nl], lens[nl..]) then Bad(hist)
      else Codes(input, pos, hist, lens[..nl], lens[nl..])
    else
      match ReadLength(input, pos, cl)
      case Truncated => Short(hist)
      case Invalid => Bad(hist)
      case Read(c, used) =>
        if c < 16 then Lengths(input, pos + used, hist, nl, nd, cl, lens + [c])
        else
          var extra, least := if c == 18 then 7 else c - 14, if c == 18 then 11 else 3;
          if pos + used + extra > 8 * |input| then Short(hist)
          else
            var n := least + Field(input, pos + used, extra);
            if |lens| + n > nl + nd || (c == 16 && lens == []) then Bad(hist)
            else
              var v := if c == 16 then lens[|lens| - 1] else 0;
              Lengths(input, pos + used + extra, hist, nl, nd, cl, lens + Repeat(v, n))
  }

  // ----- fixed and stored blocks ----------------------------------------------------------

  /** Section 3.2.6. */
  const FIXED_LITERALS: seq<nat> := Repeat(8, 144) + Repeat(9, 112) + Repeat(7, 24) + Repeat(8, 8)
  const FIXED_DISTANCES: seq<nat> := Repeat(5, 30)

  /** Section 3.2.4, from the byte boundary on: LEN, its complement, and that many bytes. */
  ghost function StoredLength(input: seq<byte>, pos: nat, hist: seq<byte>): (r: Ending)
    ensures r.Done? ==> pos < r.pos <= 8 * |input|
    ensures hist <= r.hist
  {
    if pos + 32 > 8 * |input| then Short(hist)
    else
      var len, complement := Field(input, pos, 16), Field(input, pos + 16, 16);
      if len + complement != 65535 then Bad(hist)
      else StoredBytes(input, (pos + 32) / 8, hist, len)
  }

  ghost function StoredBytes(input: seq<byte>, p: nat, hist: seq<byte>, left: nat): (r: Ending)
    requires p <= |input|
    ensures r.Done? ==> 8 * p <= r.pos <= 8 * |input|
    ensures hist <= r.hist
  {
    if p + left > |input| then Short(hist + input[p..]) else Done(8 * (p + left), hist + input[p..p + left])
  }

  // ----- the stream -------------------------------------------------------------------------

  function ByteBoundary(pos: nat): (r: nat)
    ensures pos <= r < pos + 8 && r % 8 == 0
  {
    8 * ((pos + 7) / 8)
  }

  /** Section 3.2.3: blocks up to the one marked last. */
  ghost function Blocks(input: seq<byte>, pos: nat, hist: seq<byte>): (r: Ending)
    ensures r.Done? ==> pos <= r.pos <= 8 * |input|
    ensures hist <= r.hist
    decreases 8 * |input| - pos
  {
    if pos + 3 > 8 * |input| then Short(hist)
    else
      var last, kind := Field(input, pos, 1), Field(input, pos + 1, 2);
      var block := Block(input, pos + 3, hist, kind);
      if block.Done? && last == 0 then Blocks(input, block.pos, block.hist) else block
  }

  ghost function Block(input: seq<byte>, pos: nat, hist: seq<byte>, kind: nat): (r: Ending)
    ensures r.Done? ==> pos <= r.pos <= 8 * |input|
    ensures hist <= r.hist
  {
    match kind
    case 0 => StoredLength(input, ByteBoundary(pos), hist)
    case 1 => Codes(input, pos, hist, FIXED_LITERALS, FIXED_DISTANCES)
    case 2 => Dynamic(input, pos, hist)
    case _ => Bad(hist)
  }

  /** The rest of the stream, given how the current block ends. */
  ghost function Rest(input: seq<byte>, last: bool, block: Ending): (r: Ending)
    ensures r.Done? ==> block.Done? && block.pos <= r.pos
    ensures r.Done? && block.pos <= 8 * |input| ==> r.pos <= 8 * |input|
    ensures block.hist <= r.hist
  {
    if block.Done? && !last then Blocks(input, block.pos, block.hist) else block
  }
}
