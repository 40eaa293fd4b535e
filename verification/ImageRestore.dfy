/**
  Restoring an image: `flushToDisk` and `restore`.
 */
module ImageRestore {
  import opened Bits
  import opened ImageHeader
  import opened DiskImage

  /** What is being restored: the sectors `data`, to the places marked by `bm` on a disk that was `target`, from `at` on. */
  datatype Job = Job(data: seq<Sector>, bm: seq<byte>, target: seq<Sector>, at: nat)

  /** There is a sector for every mark, and the bitmap fits into a file. */
  ghost predicate Readable(j: Job) {
    |j.bm| <= ALLOCLG && |j.data| == Rank(j.bm, 8 * |j.bm|) && j.at <= |j.target|
  }

  /** The first `n` bits are done: marked places have their sectors, all others are as they were. */
  ghost predicate Painted(now: seq<Sector>, j: Job, n: nat) {
    && |now| == |j.target|
    && forall t :: 0 <= t < |now| ==> now[t] == SectorAt(j, n, t)
  }

  ghost function SectorAt(j: Job, n: nat, t: nat): (s: Sector)
    requires t < |j.target|
  {
    if j.at <= t < j.at + n && StreamBit(j.bm, t - j.at) && Rank(j.bm, t - j.at) < |j.data| then j.data[Rank(j.bm, t - j.at)] else j.target[t]
  }

  /** The disk after the job. */
  ghost function Painting(j: Job): (now: seq<Sector>)
    ensures Painted(now, j, 8 * |j.bm|)
  {
    seq(|j.target|, t requires 0 <= t < |j.target| => SectorAt(j, 8 * |j.bm|, t))
  }

  lemma {:induction false} PaintedIsPainting(now: seq<Sector>, j: Job)
    requires Painted(now, j, 8 * |j.bm|)
    ensures now == Painting(j)
  {
    hide SectorAt;
  }

  ghost predicate AllPlaces(j: Job) {
    InRange(j.target, j.at, j.bm, 8 * |j.bm|)
  }

  /** No mark is on the place `t`. */
  ghost predicate Bare(j: Job, t: int) {
    t < j.at || !StreamBit(j.bm, t - j.at)
  }

  /**
    A marked place is missing, and neither the last place of the disk nor the one behind it is marked: the seek
    to the missing place fails while the disk stands at a place that is not marked.
   */
  ghost predicate Overruns(j: Job) {
    && !AllPlaces(j) && j.at < |j.target|
    && !StreamBit(j.bm, |j.target| - j.at - 1) && !StreamBit(j.bm, |j.target| - j.at)
  }

  /** The place just behind the last mark that is on the disk. */
  function Edge(j: Job): (t: nat)
    requires j.at <= |j.target|
    ensures j.at <= t <= |j.target|
  {
    j.at + Behind(j.bm, |j.target| - j.at)
  }

  /** There, though it is not marked, is the sector of the first missing place. */
  ghost predicate Spilled(now: seq<Sector>, j: Job)
    requires j.at <= |j.target|
  {
    && Edge(j) < |now| && Bare(j, Edge(j)) && Rank(j.bm, |j.target| - j.at) < |j.data|
    && now[Edge(j)] == j.data[Rank(j.bm, |j.target| - j.at)]
  }

  /** The bytes of a file for this job; `blocks` is what its header says about the number of files. */
  ghost predicate IsFile(file: seq<byte>, j: Job, blocks: Number) {
    && |file| == TOTALLG + SECTOR * Rank(j.bm, 8 * |j.bm|)
    && NumberAfter(file[..TOTALLG], ALLOC) == Number(|j.bm|) && NumberAfter(file[..TOTALLG], BLOCKS) == blocks
    && file[HEADERLG..TOTALLG] == Padded(j.bm, ALLOCLG)
    && file[TOTALLG..] == Join(j.data)
  }

  // ----- painting ---------------------------------------------------------------------------------

  lemma {:induction false} PaintedSkip(now: seq<Sector>, j: Job, n: nat)
    requires Painted(now, j, n) && !StreamBit(j.bm, n)
    ensures Painted(now, j, n + 1)
  {
    hide StreamBit, Rank;
    forall t | 0 <= t < |now|
      ensures now[t] == SectorAt(j, n + 1, t)
    {
      assert now[t] == SectorAt(j, n, t);
    }
  }

  lemma {:induction false} PaintedWrite(now: seq<Sector>, j: Job, n: nat, s: Sector)
    requires Painted(now, j, n) && StreamBit(j.bm, n)
    requires j.at + n < |now| && Rank(j.bm, n) < |j.data| && s == j.data[Rank(j.bm, n)]
    ensures Painted(now[j.at + n := s], j, n + 1)
  {
    hide StreamBit, Rank;
    var next := now[j.at + n := s];
    forall t | 0 <= t < |now|
      ensures next[t] == SectorAt(j, n + 1, t)
    {
      assert now[t] == SectorAt(j, n, t);
    }
  }

  /** Painting over a half painted disk gives what painting it at once does. */
  lemma {:induction false} PaintedTwice(half: seq<Sector>, full: seq<Sector>, j: Job, n: nat, m: nat)
    requires n <= m && Painted(half, j, n) && Painted(full, j.(target := half), m)
    ensures Painted(full, j, m)
  {
    hide StreamBit, Rank;
    var j' := j.(target := half);
    forall t | 0 <= t < |full|
      ensures full[t] == SectorAt(j, m, t)
    {
      assert full[t] == SectorAt(j', m, t);
      assert half[t] == SectorAt(j, n, t);
    }
  }

  /** With the disk at its end, all that can be done is done. */
  lemma {:induction false} PaintedToEnd(now: seq<Sector>, j: Job, n: nat)
    requires Painted(now, j, n) && n <= 8 * |j.bm| && |j.target| <= j.at + n
    ensures Painted(now, j, 8 * |j.bm|)
  {
    hide StreamBit, Rank;
    forall t | 0 <= t < |now|
      ensures now[t] == SectorAt(j, 8 * |j.bm|, t)
    {
      assert now[t] == SectorAt(j, n, t);
    }
  }

  lemma {:induction false} NextMark(bm: seq<byte>, i: nat, n: nat)
    requires i <= n && Rank(bm, i) < Rank(bm, n)
    ensures i < n
    ensures !StreamBit(bm, i) ==> Rank(bm, i + 1) == Rank(bm, i)
    ensures StreamBit(bm, i) ==> Rank(bm, i + 1) == Rank(bm, i) + 1
  {
  }

  function SectorOf(buffer: seq<byte>, ptr: nat): (s: Sector)
    requires ptr + SECTOR <= |buffer|
  {
    buffer[ptr..ptr + SECTOR]
  }

  lemma {:induction false} SectorOfBuffer(data: seq<Sector>, w: nat, buffer: seq<byte>, k: nat)
    requires |buffer| % SECTOR == 0 && SECTOR * k < |buffer|
    requires SECTOR * w + |buffer| <= |Join(data)| && buffer == Join(data)[SECTOR * w..SECTOR * w + |buffer|]
    ensures SECTOR * k + SECTOR <= |buffer| && w + k < |data|
    ensures SectorOf(buffer, SECTOR * k) == data[w + k]
  {
    hide Join;
    WholeSector(|buffer|, k);
    JoinAt(data, w + k);
    SliceOfSlice(Join(data), SECTOR * w, |buffer|, SECTOR * k, SECTOR);
  }

  lemma {:induction false} SliceOfSlice(x: seq<byte>, a: nat, n: nat, b: nat, m: nat)
    requires a + n <= |x| && b + m <= n
    ensures x[a..a + n][b..b + m] == x[a + b..a + b + m]
  {
    var s, t := x[a..a + n], x[a + b..a + b + m];
    assert forall i :: 0 <= i < m ==> s[b..b + m][i] == t[i];
  }

  // ----- the state of a restoration ---------------------------------------------------------------

  /** One call of `inflate`: how much it produces at most, and whether it reports the end together with the last byte. */
  datatype Call = Call(most: nat, prompt: bool)

  /** Where a sector goes if the disk stands at `was` and the place is `n` further: there, if it exists; to `was`, if the seek fails; or nowhere. */
  function Landing(was: nat, n: nat, size: nat): (place: int) {
    if was + n < size then was + n else if was + n > size > was then was else -1
  }

  /** What the disk looks like and where it stands, `i` bits into the job. */
  ghost predicate Stands(j: Job, missed: bool, i: nat, strays: nat, now: seq<Sector>, pos: nat)
    requires j.at <= |j.target|
  {
    if !missed then pos == j.at + i && Painted(now, j, i) && strays == 0
    else if Overruns(j) then Edge(j) < pos && Spilled(now, j) && strays > 0
    else pos == |j.target| && Painted(now, j, 8 * |j.bm|) && strays == 0
  }

  /** The mark after bit `i` is bit `m`. */
  ghost predicate Next(bm: seq<byte>, i: nat, m: nat) {
    && i <= m < 8 * |bm| && StreamBit(bm, m) && (i == 0 || StreamBit(bm, i - 1))
    && forall s :: i <= s < m ==> !StreamBit(bm, s) && Rank(bm, s) == Rank(bm, m)
  }

  /** What one write leaves. */
  ghost function Written(before: seq<Sector>, place: int, s: Sector): (now: seq<Sector>)
    requires place < |before|
  {
    if place < 0 then before else before[place := s]
  }

  /** A mark whose place exists. */
  lemma {:induction false} MarkThere(j: Job, i: nat, m: nat, before: seq<Sector>)
    requires Next(j.bm, i, m) && Painted(before, j, i) && j.at + m < |j.target| && Rank(j.bm, m) < |j.data|
    ensures Painted(before[j.at + m := j.data[Rank(j.bm, m)]], j, m + 1) && !Bare(j, j.at + m)
  {
    hide StreamBit, Rank;
    PaintedSkips(before, j, i, m);
    PaintedWrite(before, j, m, j.data[Rank(j.bm, m)]);
  }

  lemma {:induction false} PaintedSkips(now: seq<Sector>, j: Job, i: nat, m: nat)
    requires i <= m && Painted(now, j, i) && forall s :: i <= s < m ==> !StreamBit(j.bm, s)
    ensures Painted(now, j, m)
  {
    hide StreamBit, Rank;
    forall t | 0 <= t < |now|
      ensures now[t] == SectorAt(j, m, t)
    {
      assert now[t] == SectorAt(j, i, t);
    }
  }

  /** The first mark whose place is missing, with the disk at its end or about to be: nothing is written. */
  lemma {:induction false} MarkAtEnd(j: Job, i: nat, m: nat, before: seq<Sector>)
    requires Next(j.bm, i, m) && Painted(before, j, i) && j.at + i <= |j.target|
    requires j.at + m == |j.target| || j.at + i == |j.target|
    ensures Painted(before, j, 8 * |j.bm|) && !Overruns(j)
  {
    hide StreamBit, Rank, InRange;
    PaintedSkips(before, j, i, m);
    PaintedToEnd(before, j, m);
    assert j.at + m == |j.target| ==> |j.target| - j.at == m;
    assert j.at + i == |j.target| && i > 0 ==> |j.target| - j.at - 1 == i - 1;
  }

  /** The first mark whose place is missing, with the disk before its end: its sector goes to where the disk is. */
  lemma {:induction false} MarkPastEnd(j: Job, i: nat, m: nat, before: seq<Sector>)
    requires Next(j.bm, i, m) && |before| == |j.target| && j.at + i < |j.target| < j.at + m && Rank(j.bm, m) < |j.data|
    ensures Overruns(j) && Edge(j) == j.at + i && Bare(j, j.at + i) && Spilled(before[j.at + i := j.data[Rank(j.bm, m)]], j)
  {
    hide StreamBit, Rank;
    var n := |j.target| - j.at;
    BehindIs(j.bm, i, n);
    assert !StreamBit(j.bm, n - 1) && !StreamBit(j.bm, n) && !StreamBit(j.bm, i);
    assert Rank(j.bm, n) == Rank(j.bm, m);
  }

  lemma {:induction false} FirstSteps(j: Job, i: nat, m: nat, before: seq<Sector>, place: int)
    requires Readable(j) && Next(j.bm, i, m) && Painted(before, j, i) && j.at + i <= |j.target| && Rank(j.bm, m) < |j.data|
    requires place == Landing(j.at + i, m - i, |j.target|)
    ensures place < |before| && Stands(j, j.at + m >= |j.target|, m + 1, if place >= 0 && Bare(j, place) then 1 else 0,
                                       Written(before, place, j.data[Rank(j.bm, m)]), if place >= 0 then place + 1 else |j.target|)
  {
    hide StreamBit, Rank, Overruns, Spilled, Edge, Next, Bare, SectorAt;
    if j.at + m < |j.target| {
      MarkThere(j, i, m, before);
    } else if j.at + m == |j.target| || j.at + i == |j.target| {
      MarkAtEnd(j, i, m, before);
    } else {
      MarkPastEnd(j, i, m, before);
    }
  }

  lemma {:induction false} StandsAt(j: Job, missed: bool, i: nat, strays: nat, now: seq<Sector>, pos: nat)
    requires Readable(j) && Stands(j, missed, i, strays, now, pos)
    ensures !missed ==> pos == j.at + i && Painted(now, j, i) && strays == 0
  {
  }

  /** After a mark was missed, writes only go further astray, or nowhere. */
  lemma {:induction false} LaterSteps(j: Job, i: nat, i': nat, strays: nat, more: nat, before: seq<Sector>, pos: nat, n: nat, place: int, s: Sector)
    requires Readable(j) && Stands(j, true, i, strays, before, pos) && |before| == |j.target| && pos <= |j.target|
    requires place == Landing(pos, n, |j.target|) && (place < 0 ==> more == 0)
    ensures place < |before| && Stands(j, true, i', strays + more, Written(before, place, s), if place >= 0 then place + 1 else |j.target|)
  {
    hide StreamBit, Rank, Overruns, SectorAt, Behind;
  }

  /** Marks up to the next one, and that one. */
  lemma {:induction false} RangeNext(j: Job, i: nat, m: nat)
    requires Next(j.bm, i, m)
    ensures InRange(j.target, j.at, j.bm, m + 1) <==> InRange(j.target, j.at, j.bm, i) && j.at + m < |j.target|
  {
    hide StreamBit, Rank;
  }

  class Restorer {
    const dev: Device
    /** How many seeks and writes failed in this pass.  They are reported, and the pass goes on. */
    var errors: nat
    var bitindex: nat
    var bitmap: seq<byte>
    var buffer: seq<byte>
    var firstpass: bool
    var bitmaplg: nat
    var fmax: Number
    /** How many sectors went to places that are not marked in this pass. */
    ghost var strays: nat

    constructor (dev: Device)
      ensures this.dev == dev && fmax == NoNumber
    {
      this.dev, errors := dev, 0;
      bitindex, bitmap, buffer, firstpass, bitmaplg, fmax := 0, [], [], true, 0, NoNumber;
      strays := 0;
    }

    /**
      The bitmap is known, and `bitindex` is just behind a mark.  There were errors exactly if a marked place is
      missing.  Before that, the disk is painted up to `bitindex` and stands there; after it, a sector has gone
      astray, or the disk is at its end and as it should be.
     */
    ghost predicate Drawn(j: Job)
      reads this, dev
    {
      && Readable(j) && dev.Valid() && |dev.sectors| == |j.target| && bitmap == Padded(j.bm, ALLOCLG) && bitmaplg == |j.bm|
      && bitindex <= 8 * |j.bm| && (bitindex == 0 || StreamBit(j.bm, bitindex - 1))
      && (errors == 0 <==> InRange(j.target, j.at, j.bm, bitindex))
      && Stands(j, errors > 0, bitindex, strays, dev.sectors, dev.pos)
    }

    /** Moves `bitindex` to the next mark. */
    method NextPlace(ghost j: Job) returns (skip: nat)
      requires Drawn(j) && Rank(j.bm, bitindex) < Rank(j.bm, 8 * |j.bm|)
      modifies this`bitindex
      ensures Next(j.bm, old(bitindex), bitindex) && old(bitindex) <= bitindex < 8 * |j.bm| && skip == SECTOR * (bitindex - old(bitindex))
      ensures StreamBit(j.bm, bitindex)
      ensures Rank(j.bm, bitindex) == old(Rank(j.bm, bitindex)) && Rank(j.bm, bitindex + 1) == Rank(j.bm, bitindex) + 1
    {
      hide StreamBit, Rank, Stands, Padded, ByteBit, InRange;
      ghost var rank := Rank(j.bm, bitindex);
      NextMark(j.bm, bitindex, 8 * |j.bm|);
      PadBits(j.bm, bitindex);
      skip := 0;
      while !ByteBit(bitmap[bitindex / 8], bitindex % 8)
        invariant old(bitindex) <= bitindex < 8 * |j.bm| && Rank(j.bm, bitindex) == rank
        invariant StreamBit(j.bm, bitindex) == ByteBit(bitmap[bitindex / 8], bitindex % 8)
        invariant Rank(j.bm, bitindex + 1) == rank + (if StreamBit(j.bm, bitindex) then 1 else 0)
        invariant skip == SECTOR * (bitindex - old(bitindex))
        invariant forall s :: old(bitindex) <= s < bitindex ==> !StreamBit(j.bm, s) && Rank(j.bm, s) == rank
        decreases 8 * |j.bm| - bitindex
      {
        bitindex, skip := bitindex + 1, skip + SECTOR;
        NextMark(j.bm, bitindex, 8 * |j.bm|);
        PadBits(j.bm, bitindex);
      }
    }

    /** Seeks and writes.  After a seek that failed, the sector goes to wherever the disk is. */
    method Put(s: Sector, skip: nat) returns (ghost place: int)
      requires dev.Valid() && skip % SECTOR == 0
      modifies this`errors, dev
      ensures dev.Valid() && place == Landing(old(dev.pos), skip / SECTOR, |old(dev.sectors)|) && errors >= old(errors)
      ensures errors == old(errors) <==> old(dev.pos) + skip / SECTOR < |dev.sectors|
      ensures if place >= 0 then dev.pos == place + 1 && dev.sectors == old(dev.sectors)[place := s]
              else dev.pos == |dev.sectors| && dev.sectors == old(dev.sectors)
    {
      place := Landing(dev.pos, skip / SECTOR, |dev.sectors|);
      if skip > 0 {
        var moved := dev.Seek(skip);
        if !moved {
          errors := errors + 1;
        }
      }
      var written := dev.Write(s);
      if !written {
        errors := errors + 1;
      }
    }

    /** Writes one sector at the next mark. */
    method PutSector(s: Sector, ghost j: Job)
      requires Drawn(j) && Rank(j.bm, bitindex) < Rank(j.bm, 8 * |j.bm|) && s == j.data[Rank(j.bm, bitindex)]
      modifies this`bitindex, this`errors, this`strays, dev
      ensures Drawn(j) && Rank(j.bm, bitindex) == old(Rank(j.bm, bitindex)) + 1
    {
      hide StreamBit, Rank, Stands, Padded, InRange, Next, Bare, Landing;
      ghost var i, before, pos, missed := bitindex, dev.sectors, dev.pos, errors > 0;
      StandsAt(j, missed, i, strays, before, pos);
      var skip := NextPlace(j);
      ghost var m := bitindex;
      ghost var place := Put(s, skip);
      ghost var more := if place >= 0 && Bare(j, place) then 1 else 0;
      RangeNext(j, i, m);
      if missed {
        LaterSteps(j, i, m + 1, strays, more, before, pos, m - i, place, s);
      } else {
        FirstSteps(j, i, m, before, place);
      }
      strays, bitindex := strays + more, bitindex + 1;
    }

    /** `flushToDisk`: the first `lg` bytes of the buffer. */
    method FlushToDisk(lg: nat, ghost j: Job)
      requires Drawn(j) && lg <= |buffer| && lg % SECTOR == 0
      requires var w := Rank(j.bm, bitindex); SECTOR * w + lg <= |Join(j.data)| && buffer[..lg] == Join(j.data)[SECTOR * w..SECTOR * w + lg]
      modifies this`bitindex, this`errors, this`strays, dev
      ensures Drawn(j) && Rank(j.bm, bitindex) == old(Rank(j.bm, bitindex)) + lg / SECTOR
    {
      hide StreamBit, Rank, Padded, Join, Drawn;
      DrawnFor(j);
      ghost var w := Rank(j.bm, bitindex);
      var ptr := 0;
      ghost var k := 0;
      while ptr < lg
        invariant ptr == SECTOR * k && ptr <= lg && Drawn(j)
        invariant Rank(j.bm, bitindex) == w + k
        decreases lg - ptr
      {
        WholeSector(lg, k);
        SectorOfBuffer(j.data, w, buffer[..lg], k);
        PutSector(SectorOf(buffer[..lg], ptr), j);
        ptr, k := ptr + SECTOR, k + 1;
      }
    }

    lemma DrawnFor(j: Job)
      requires Drawn(j)
      ensures Readable(j) && bitindex <= 8 * |j.bm|
    {
    }

    // ----- one pass over a file ------------------------------------------------------------------

    /** After `d` bytes of the file: what is in the buffer, and what was done with the rest. */
    ghost predicate Taken(file: seq<byte>, j: Job, d: nat)
      reads this, dev
    {
      && dev.Valid() && |dev.sectors| == |j.target|
      && |buffer| <= TOTALLG && |buffer| <= d <= |file| && buffer == file[d - |buffer|..d]
      && if firstpass then d == |buffer| && dev.sectors == j.target && dev.pos == j.at && errors == 0 && strays == 0
         else Drawn(j) && d - |buffer| == TOTALLG + SECTOR * Rank(j.bm, bitindex)
    }

    /** The first frame: header and bitmap. */
    method ReadHeader(ghost file: seq<byte>, ghost j: Job, ghost blocks: Number)
      requires Readable(j) && IsFile(file, j, blocks) && Taken(file, j, TOTALLG) && firstpass
      modifies this
      ensures firstpass == old(firstpass) && buffer == old(buffer)
      ensures Drawn(j) && Rank(j.bm, bitindex) == 0
      ensures fmax == if blocks.Number? then blocks else old(fmax)
    {
      hide StreamBit, Padded, Join, NumberAfter, SectorAt;
      assert buffer == file[..TOTALLG];
      var n := NumberAfter(buffer, BLOCKS);
      if n.Number? {
        fmax := n;
      }
      var lg := NumberAfter(buffer, ALLOC);
      if lg.Number? {
        bitmaplg := lg.value;
      }
      bitmap := buffer[HEADERLG..];
      assert bitmap == file[HEADERLG..TOTALLG];
      bitindex := 0;
      PaintedNothing(j);
    }

    /** `inflate` puts `n` more bytes into the buffer. */
    method Absorb(file: seq<byte>, d: nat, n: nat, ghost j: Job)
      requires Taken(file, j, d) && d + n <= |file| && |buffer| + n <= TOTALLG
      modifies this`buffer
      ensures Taken(file, j, d + n) && |buffer| == old(|buffer|) + n
    {
      hide StreamBit, Padded, Stands, Rank, Readable, InRange;
      Appended(file, d, buffer, n);
      buffer := buffer + file[d..d + n];
    }

    /** A full buffer: the header, or sectors. */
    method TakeFrame(ghost file: seq<byte>, ghost j: Job, ghost blocks: Number, ghost d: nat)
      requires Readable(j) && IsFile(file, j, blocks) && Taken(file, j, d) && |buffer| == TOTALLG
      modifies this, dev
      ensures Taken(file, j, d) && !firstpass && buffer == []
      ensures fmax == if old(firstpass) && blocks.Number? then blocks else old(fmax)
    {
      hide StreamBit, Padded, Join, NumberAfter, Stands, Rank, InRange;
      if firstpass {
        ReadHeader(file, j, blocks);
        firstpass := false;
      } else {
        BufferIsData(file, j, blocks, d, buffer, Rank(j.bm, bitindex));
        FlushToDisk(TOTALLG, j);
      }
      buffer := [];
    }

    /** The end of the stream: whatever is left in the buffer. */
    method TakeLast(ghost file: seq<byte>, ghost j: Job, ghost blocks: Number)
      requires Readable(j) && IsFile(file, j, blocks) && Taken(file, j, |file|)
      modifies this, dev
      ensures Drawn(j) && Rank(j.bm, bitindex) == Rank(j.bm, 8 * |j.bm|) && dev.Valid() && |dev.sectors| == |j.target|
      ensures fmax == if old(firstpass) && blocks.Number? then blocks else old(fmax)
    {
      hide StreamBit, Padded, Join, NumberAfter, Stands, Rank, Readable, IsFile, InRange;
      FileSize(file, j, blocks);
      if firstpass {
        assert Taken(file, j, TOTALLG);
        ReadHeader(file, j, blocks);
        return;
      }
      BufferIsData(file, j, blocks, |file|, buffer, Rank(j.bm, bitindex));
      FlushToDisk(|buffer|, j);
    }

    /**
      Decompresses the file and writes it out.  `calls` is how the first calls of `inflate` behave;
      after them it fails, or behaves well.
     */
    method Pass(file: seq<byte>, calls: seq<Call>, fails: bool, ghost j: Job, ghost blocks: Number) returns (ended: bool)
      requires dev.Valid() && Readable(j) && IsFile(file, j, blocks) && j.target == dev.sectors && j.at == dev.pos
      modifies this, dev
      ensures dev.Valid() && |dev.sectors| == |j.target|
      ensures ended ==> Drawn(j) && Rank(j.bm, bitindex) == Rank(j.bm, 8 * |j.bm|) && fmax == (if blocks.Number? then blocks else old(fmax))
      ensures !ended ==> fails && (fmax == old(fmax) || (blocks.Number? && fmax == blocks))
      ensures !ended && !Overruns(j) ==> strays == 0 && exists n :: 0 <= n <= 8 * |j.bm| && Painted(dev.sectors, j, n)
    {
      hide StreamBit, Padded, Join, NumberAfter, Painted, Rank, Drawn, Overruns, Taken, IsFile, Readable;
      firstpass, bitmaplg, bitindex, buffer, errors, ended := true, 0, 0, [], 0, false;
      strays := 0;
      var d: nat, i: nat := 0, 0;
      NothingTaken(file, j);
      while !ended
        invariant i <= |calls| && d <= |file| && Taken(file, j, d) && (if ended then d == |file| else |buffer| < TOTALLG)
        invariant fmax == if !firstpass && blocks.Number? then blocks else old(fmax)
        decreases |calls| - i, |file| - d, !ended
      {
        if i == |calls| && fails {
          TakenSize(file, j, d);
          if !Overruns(j) {
            HalfPainted(file, j, d);
          }
          return;
        }
        var call := if i < |calls| then calls[i] else Call(TOTALLG, true);
        i := if i < |calls| then i + 1 else i;
        d, ended := Inflate(file, d, call, j);
        if !ended && |buffer| == TOTALLG {
          TakeFrame(file, j, blocks, d);
        }
      }
      TakeLast(file, j, blocks);
    }

    /** One call of `inflate`. */
    method Inflate(file: seq<byte>, d: nat, call: Call, ghost j: Job) returns (d': nat, ended: bool)
      requires d <= |file| && Taken(file, j, d) && |buffer| < TOTALLG
      modifies this`buffer
      ensures d <= d' <= |file| && Taken(file, j, d') && |buffer| <= TOTALLG && (ended ==> d' == |file|)
      ensures call == Call(TOTALLG, true) ==> d < d' || ended
    {
      hide Taken;
      var room, left := TOTALLG - |buffer|, |file| - d;
      var n := if call.most <= room && call.most <= left then call.most else if room <= left then room else left;
      Absorb(file, d, n, j);
      d' := d + n;
      ended := d' == |file| && call.prompt;
    }

    lemma NothingTaken(file: seq<byte>, j: Job)
      requires dev.Valid() && j.target == dev.sectors && j.at == dev.pos && firstpass && errors == 0 && strays == 0 && buffer == []
      ensures Taken(file, j, 0)
    {
    }

    lemma TakenSize(file: seq<byte>, j: Job, d: nat)
      requires Taken(file, j, d)
      ensures dev.Valid() && |dev.sectors| == |j.target|
    {
      hide Drawn;
    }

    // ----- files and volumes ---------------------------------------------------------------------

    /**
      One file: passes that fail, each undone by seeking back, then one that ends.  There are errors exactly if a
      marked place is missing, and a sector goes astray exactly if the job overruns; if it does not, every place
      of the disk is as it should be.
     */
    method RestoreFile(file: seq<byte>, attempts: seq<seq<Call>>, calls: seq<Call>, ghost j: Job, ghost blocks: Number)
      requires dev.Valid() && Readable(j) && IsFile(file, j, blocks) && j.target == dev.sectors && j.at == dev.pos
      modifies this, dev
      ensures dev.Valid() && |dev.sectors| == |j.target| && fmax == if blocks.Number? then blocks else old(fmax)
      ensures errors == 0 <==> AllPlaces(j)
      ensures strays > 0 <==> Overruns(j)
      ensures if Overruns(j) then Spilled(dev.sectors, j) else Painted(dev.sectors, j, 8 * |j.bm|)
      ensures errors == 0 ==> dev.pos == After(j.bm, j.at, |j.target|)
    {
      hide StreamBit, Painted, Rank, IsFile, Taken, Drawn, InRange, Spilled;
      var starto := dev.pos;
      ghost var n: nat := 0;
      PaintedNothing(j);
      for i := 0 to |attempts|
        invariant dev.Valid() && |dev.sectors| == |j.target| && dev.pos == starto
        invariant n <= 8 * |j.bm| && (Overruns(j) || Painted(dev.sectors, j, n))
        invariant fmax == old(fmax) || (blocks.Number? && fmax == blocks)
      {
        ghost var half := dev.sectors;
        SameFile(file, j, half, blocks);
        SameRange(j, half);
        var ended := Pass(file, attempts[i], true, j.(target := half), blocks);
        if ended {
          FinishFile(j, half, n);
          return;
        }
        if !Overruns(j) {
          ghost var m :| 0 <= m <= 8 * |j.bm| && Painted(dev.sectors, j.(target := half), m);
          n := PaintedEither(half, dev.sectors, j, n, m);
        }
        dev.pos := starto;
      }
      ghost var half := dev.sectors;
      SameFile(file, j, half, blocks);
      SameRange(j, half);
      var ended := Pass(file, calls, false, j.(target := half), blocks);
      FinishFile(j, half, n);
    }

    /** After the last sector: on to the end of the bitmap. */
    method FinishFile(ghost j: Job, ghost half: seq<Sector>, ghost n: nat)
      requires Readable(j) && n <= 8 * |j.bm| && |half| == |j.target| && (Overruns(j) || Painted(half, j, n))
      requires Drawn(j.(target := half)) && Rank(j.bm, bitindex) == Rank(j.bm, 8 * |j.bm|)
      modifies dev`pos
      ensures dev.Valid() && |dev.sectors| == |j.target|
      ensures errors == 0 <==> AllPlaces(j)
      ensures strays > 0 <==> Overruns(j)
      ensures if Overruns(j) then Spilled(dev.sectors, j) else Painted(dev.sectors, j, 8 * |j.bm|)
      ensures errors == 0 ==> dev.pos == After(j.bm, j.at, |j.target|)
    {
      hide StreamBit, Painted, Rank, Padded, InRange, Overruns, Spilled, Behind;
      SameRange(j, half);
      NoMoreMarks(half, j.at, j.bm, bitindex);
      FinalDisk(dev.sectors, j, half, n, errors > 0, bitindex, strays, dev.pos);
      if bitmaplg > 0 {
        if bitmaplg * 8 > bitindex {
          var moved := dev.Seek(SECTOR * (bitmaplg * 8 - bitindex));
        }
      }
    }

    lemma HalfPainted(file: seq<byte>, j: Job, d: nat)
      requires Readable(j) && Taken(file, j, d) && !Overruns(j)
      ensures strays == 0 && exists n :: 0 <= n <= 8 * |j.bm| && Painted(dev.sectors, j, n)
    {
      hide StreamBit, Padded, Rank, Painted, InRange, Overruns;
      PaintedNothing(j);
      assert !firstpass ==> Painted(dev.sectors, j, if errors == 0 then bitindex else 8 * |j.bm|);
    }
  }

  /** The disk after the last pass. */
  lemma {:induction false} FinalDisk(now: seq<Sector>, j: Job, half: seq<Sector>, n: nat, missed: bool, i: nat, strays: nat, pos: nat)
    requires Readable(j) && n <= 8 * |j.bm| && |half| == |j.target| && |now| == |j.target| && (Overruns(j) || Painted(half, j, n))
    requires i <= 8 * |j.bm| && Rank(j.bm, i) == Rank(j.bm, 8 * |j.bm|) && Stands(j.(target := half), missed, i, strays, now, pos)
    requires missed <==> !AllPlaces(j)
    ensures strays > 0 <==> Overruns(j)
    ensures if Overruns(j) then Spilled(now, j) else Painted(now, j, 8 * |j.bm|)
    ensures !missed ==> pos == j.at + i
  {
    hide StreamBit, Painted, Rank, InRange;
    SameRange(j, half);
    if !Overruns(j) {
      if !missed {
        PaintedRest(now, j.(target := half), i);
      }
      PaintedTwice(half, now, j, n, 8 * |j.bm|);
    }
  }

  lemma {:induction false} SameFile(file: seq<byte>, j: Job, half: seq<Sector>, blocks: Number)
    requires Readable(j) && IsFile(file, j, blocks) && |half| == |j.target|
    ensures Readable(j.(target := half)) && IsFile(file, j.(target := half), blocks)
  {
    hide StreamBit, Join, Rank, NumberAfter, Padded;
  }

  lemma {:induction false} SameRange(j: Job, half: seq<Sector>)
    requires |half| == |j.target|
    ensures AllPlaces(j.(target := half)) == AllPlaces(j) && Overruns(j.(target := half)) == Overruns(j)
    ensures j.at <= |j.target| ==> Edge(j.(target := half)) == Edge(j) && forall now :: Spilled(now, j.(target := half)) == Spilled(now, j)
  {
    hide StreamBit;
  }

  lemma {:induction false} NoMarks(bm: seq<byte>, i: nat, n: nat, s: nat)
    requires i <= s < n && Rank(bm, i) == Rank(bm, n)
    ensures !StreamBit(bm, s)
  {
    hide StreamBit;
    RankMonotone(bm, i, s);
    RankMonotone(bm, s + 1, n);
  }

  lemma {:induction false} NoMoreMarks(disk: seq<Sector>, at: nat, bm: seq<byte>, i: nat)
    requires i <= 8 * |bm| && Rank(bm, i) == Rank(bm, 8 * |bm|) && (i == 0 || StreamBit(bm, i - 1))
    ensures InRange(disk, at, bm, i) == InRange(disk, at, bm, 8 * |bm|)
    ensures Behind(bm, 8 * |bm|) == i && (InRange(disk, at, bm, i) && i > 0 ==> at + i <= |disk|)
  {
    hide StreamBit, Rank;
    forall s | i <= s < 8 * |bm|
      ensures !StreamBit(bm, s)
    {
      NoMarks(bm, i, 8 * |bm|, s);
    }
    BehindIs(bm, i, 8 * |bm|);
    assert i > 0 && InRange(disk, at, bm, i) ==> at + (i - 1) < |disk|;
  }

  /** With no marks left, all is done. */
  lemma {:induction false} PaintedRest(now: seq<Sector>, j: Job, i: nat)
    requires Readable(j) && i <= 8 * |j.bm| && Rank(j.bm, i) == Rank(j.bm, 8 * |j.bm|)
    requires Painted(now, j, i)
    ensures Painted(now, j, 8 * |j.bm|)
  {
    hide StreamBit, Rank;
    var n := 8 * |j.bm|;
    forall s | i <= s < n
      ensures !StreamBit(j.bm, s)
    {
      NoMarks(j.bm, i, n, s);
    }
    forall t | 0 <= t < |now|
      ensures now[t] == SectorAt(j, n, t)
    {
      assert now[t] == SectorAt(j, i, t);
    }
  }

  /** One failed pass after another: the disk is painted as far as the further of the two came. */
  lemma {:induction false} PaintedEither(half: seq<Sector>, now: seq<Sector>, j: Job, n: nat, m: nat) returns (k: nat)
    requires n <= 8 * |j.bm| && m <= 8 * |j.bm| && Painted(half, j, n) && Painted(now, j.(target := half), m)
    ensures k <= 8 * |j.bm| && Painted(now, j, k)
  {
    hide StreamBit;
    k := if n <= m then m else n;
    var j' := j.(target := half);
    forall t | 0 <= t < |now|
      ensures now[t] == SectorAt(j, k, t)
    {
      assert now[t] == SectorAt(j', m, t);
      assert half[t] == SectorAt(j, n, t);
    }
  }

  lemma {:induction false} PaintedNothing(j: Job)
    ensures Painted(j.target, j, 0)
  {
  }

  lemma {:induction false} Appended(file: seq<byte>, d: nat, buffer: seq<byte>, n: nat)
    requires |buffer| <= d && d + n <= |file| && buffer == file[d - |buffer|..d]
    ensures buffer + file[d..d + n] == file[d - |buffer|..d + n]
  {
  }

  lemma {:induction false} FileSize(file: seq<byte>, j: Job, blocks: Number)
    requires Readable(j) && IsFile(file, j, blocks)
    ensures |file| == TOTALLG + SECTOR * Rank(j.bm, 8 * |j.bm|)
  {
    hide StreamBit, Join, Rank, NumberAfter, Padded;
  }

  /** The buffer holds the next of the kept sectors. */
  lemma {:induction false} BufferIsData(file: seq<byte>, j: Job, blocks: Number, d: nat, buffer: seq<byte>, w: nat)
    requires Readable(j) && IsFile(file, j, blocks)
    requires |buffer| <= d <= |file| && buffer == file[d - |buffer|..d] && d - |buffer| == TOTALLG + SECTOR * w
    requires |buffer| == TOTALLG || d == |file|
    ensures |buffer| % SECTOR == 0 && buffer[..|buffer|] == buffer
    ensures var data := Join(j.data);
            SECTOR * w + |buffer| <= |data| && buffer == data[SECTOR * w..SECTOR * w + |buffer|]
    ensures d == |file| ==> w + |buffer| / SECTOR == Rank(j.bm, 8 * |j.bm|)
  {
    hide StreamBit, Join, Rank, NumberAfter, Padded;
    var data := file[TOTALLG..];
    var m := if |buffer| == TOTALLG then 47 else Rank(j.bm, 8 * |j.bm|) - w;
    assert |buffer| == SECTOR * m;
    assert file[d - |buffer|..d] == data[SECTOR * w..SECTOR * w + |buffer|];
  }

  lemma {:induction false} WholeSector(lg: nat, k: nat)
    requires lg % SECTOR == 0 && SECTOR * k < lg
    ensures SECTOR * k + SECTOR <= lg
  {
  }

  // ----- from the format to the facts ---------------------------------------------------------------

  lemma {:induction false} TextExtends(h: seq<byte>, more: seq<byte>)
    requires |Text(h)| < |h|
    ensures Text(h + more) == Text(h)
  {
    var a, b := Text(h), Text(h + more);
    assert (h + more)[|a|] == 0;
    assert forall i :: 0 <= i < |a| ==> (h + more)[i] == a[i];
  }

  lemma {:induction false} HeaderNumbers(prefix: seq<byte>, bm: seq<byte>, more: seq<byte>, tag: seq<byte>)
    requires Fits(prefix, |bm|) && |bm| <= ALLOCLG
    ensures var h := Header(prefix, |bm|) + Padded(bm, ALLOCLG);
            |h| == TOTALLG && (h + more)[..TOTALLG] == h && (h + more)[HEADERLG..TOTALLG] == Padded(bm, ALLOCLG) && (h + more)[TOTALLG..] == more
            && NumberAfter(h, tag) == NumberAfter(Header(prefix, |bm|), tag)
  {
    hide Padded, Header, Find;
    HeaderText(prefix, |bm|);
    PadBits(bm, 0);
    TextExtends(Header(prefix, |bm|), Padded(bm, ALLOCLG));
  }

  // ----- the sectors in a file ----------------------------------------------------------------------

  function Sectors(s: seq<byte>): (l: seq<Sector>) {
    if |s| < SECTOR then [] else Sectors(s[..|s| - SECTOR]) + [s[|s| - SECTOR..]]
  }

  lemma {:induction false} JoinSectors(s: seq<byte>)
    requires |s| % SECTOR == 0
    ensures Join(Sectors(s)) == s && SECTOR * |Sectors(s)| == |s|
  {
    if |s| >= SECTOR {
      var n := |s| - SECTOR;
      JoinSectors(s[..n]);
      JoinAppend(Sectors(s[..n]), s[n..]);
    }
  }

  lemma {:induction false} SectorsOfJoin(l: seq<Sector>)
    ensures Sectors(Join(l)) == l
  {
    if l != [] {
      var n, s := |l| - 1, Join(l);
      SectorsOfJoin(l[..n]);
      assert s[..|s| - SECTOR] == Join(l[..n]) && s[|s| - SECTOR..] == l[n];
    }
  }

  /** What a file holds behind its header and bitmap. */
  function DataOf(file: seq<byte>): (l: seq<Sector>) {
    if |file| < TOTALLG then [] else Sectors(file[TOTALLG..])
  }

  /** The part of the job that is file `i`, on the disk and at the place it finds. */
  function Part(data: seq<Sector>, bm: seq<byte>, i: nat, now: seq<Sector>, pos: nat): (j: Job)
    requires ALLOCLG * i <= |bm|
  {
    Job(data, Chunk(bm, i), now, pos)
  }

  function BlocksIn(bm: seq<byte>, i: nat): (n: Number) {
    if i == 0 then Number(FileCount(bm)) else NoNumber
  }

  lemma {:induction false} ShapeIsFile(file: seq<byte>, j: Job, prefix: seq<byte>, blocks: Number)
    requires |j.bm| <= ALLOCLG && j.at <= |j.target| && Fits(prefix, |j.bm|) && FileShape(file, j.bm, prefix)
    requires j.data == DataOf(file) && NumberAfter(Header(prefix, |j.bm|), BLOCKS) == blocks
    ensures Readable(j) && IsFile(file, j, blocks)
  {
    hide StreamBit, Join, Rank, NumberAfter, Padded, Header, Fits, Sectors;
    var head := Header(prefix, |j.bm|) + Padded(j.bm, ALLOCLG);
    var more := file[|head|..];
    assert file == head + more;
    HeaderNumbers(prefix, j.bm, more, ALLOC);
    HeaderNumbers(prefix, j.bm, more, BLOCKS);
    AllocRoundTrip(prefix, |j.bm|);
    JoinSectors(more);
  }

  lemma {:induction false} PartIsFile(file: seq<byte>, bm: seq<byte>, l: Labels, i: nat, now: seq<Sector>, pos: nat)
    requires Printable(l, bm) && i < FileCount(bm) && ShapeOf(file, bm, l, i) && pos <= |now|
    ensures ALLOCLG * i <= |bm|
    ensures var j := Part(DataOf(file), bm, i, now, pos); Readable(j) && IsFile(file, j, BlocksIn(bm, i))
  {
    hide StreamBit, IsFile, FileShape, Header, NumberAfter, Contains, Readable, DataOf;
    var nb := FileCount(bm);
    var prefix := Prefix(l, nb, i);
    var lg := |Chunk(bm, i)|;
    if i == 0 {
      BlocksRoundTrip(l.sectors, nb, l.info + l.notes[0], lg);
    } else {
      NoBlocks(prefix, lg);
    }
    ShapeIsFile(file, Part(DataOf(file), bm, i, now, pos), prefix, BlocksIn(bm, i));
  }

  // ----- a volume -----------------------------------------------------------------------------------

  /** The disk after `n` files, each put where the disk is when it begins. */
  ghost function Laid(data: seq<seq<Sector>>, bm: seq<byte>, at: nat, target: seq<Sector>, n: nat): (now: seq<Sector>)
    ensures |now| == |target|
  {
    if n == 0 then target
    else
      var now := Laid(data, bm, at, target, n - 1);
      if n <= |data| && ALLOCLG * (n - 1) <= |bm| then Painting(Part(data[n - 1], bm, n - 1, now, Base(bm, at, |target|, n - 1))) else now
  }

  /** Every marked place exists and has its sector: mark `s` of file `i` belongs `s` sectors behind the place of the file. */
  ghost predicate PlaceRight(now: seq<Sector>, data: seq<seq<Sector>>, bm: seq<byte>, at: nat, i: nat, s: nat)
    requires i < |data| && ALLOCLG * i <= |bm|
  {
    var t, k := at + 8 * (ALLOCLG * i) + s, Rank(Chunk(bm, i), s);
    t < |now| && k < |data[i]| && now[t] == data[i][k]
  }

  ghost predicate FileRight(now: seq<Sector>, data: seq<seq<Sector>>, bm: seq<byte>, at: nat, i: nat)
    requires i < |data|
  {
    && ALLOCLG * i <= |bm|
    && forall s :: 0 <= s < 8 * |Chunk(bm, i)| && StreamBit(Chunk(bm, i), s) ==> PlaceRight(now, data, bm, at, i, s)
  }

  ghost predicate OthersKept(now: seq<Sector>, bm: seq<byte>, target: seq<Sector>, at: nat)
    requires |now| == |target|
  {
    forall t :: 0 <= t < |now| && (t < at || !StreamBit(bm, t - at)) ==> now[t] == target[t]
  }

  /** The disk is right: every marked place exists and has its sector, and no other has changed. */
  ghost predicate Right(now: seq<Sector>, data: seq<seq<Sector>>, bm: seq<byte>, target: seq<Sector>, at: nat) {
    && |now| == |target| && |data| == FileCount(bm)
    && (forall i :: 0 <= i < FileCount(bm) ==> FileRight(now, data, bm, at, i))
    && OthersKept(now, bm, target, at)
  }

  lemma {:induction false} RightInRange(now: seq<Sector>, data: seq<seq<Sector>>, bm: seq<byte>, target: seq<Sector>, at: nat)
    requires Right(now, data, bm, target, at)
    ensures InRange(target, at, bm, 8 * |bm|)
  {
    hide StreamBit, Chunk, FileCount, Rank, OthersKept;
    forall i | 0 <= i < FileCount(bm) && ALLOCLG * i <= |bm|
      ensures InRange(target, at + 8 * (ALLOCLG * i), Chunk(bm, i), 8 * |Chunk(bm, i)|)
    {
      assert FileRight(now, data, bm, at, i);
      forall s | 0 <= s < 8 * |Chunk(bm, i)| && StreamBit(Chunk(bm, i), s)
        ensures at + 8 * (ALLOCLG * i) + s < |target|
      {
        assert PlaceRight(now, data, bm, at, i, s);
      }
    }
    ChunksInRange(target, at, bm);
  }

  ghost predicate EnoughData(data: seq<seq<Sector>>, bm: seq<byte>) {
    && |data| == FileCount(bm)
    && forall i :: 0 <= i < |data| && ALLOCLG * i <= |bm| ==> |data[i]| == Rank(Chunk(bm, i), 8 * |Chunk(bm, i)|)
  }

  /** One more file, in its place or without marks. */
  lemma {:induction false} LaidNext(data: seq<seq<Sector>>, bm: seq<byte>, at: nat, target: seq<Sector>, n: nat, t: nat)
    requires EnoughData(data, bm) && n < FileCount(bm) && InRange(target, at, bm, 8 * |bm|) && t < |target|
    ensures ALLOCLG * n <= |bm|
    ensures var was, now, c, from := Laid(data, bm, at, target, n), Laid(data, bm, at, target, n + 1), Chunk(bm, n), at + 8 * (ALLOCLG * n);
            now[t] == if from <= t < from + 8 * |c| && StreamBit(c, t - from) && Rank(c, t - from) < |data[n]| then data[n][Rank(c, t - from)] else was[t]
  {
    hide StreamBit, Chunk, Rank, Base, Laid, InRange;
    ChunkFits(bm, n);
    BaseInPlace(target, at, bm, n);
    LaidStep(data, bm, at, target, n);
    var was, now, c, from := Laid(data, bm, at, target, n), Laid(data, bm, at, target, n + 1), Chunk(bm, n), at + 8 * (ALLOCLG * n);
    var j := Part(data[n], bm, n, was, Base(bm, at, |target|, n));
    assert now[t] == SectorAt(j, 8 * |c|, t);
  }

  lemma {:induction false} LaidStep(data: seq<seq<Sector>>, bm: seq<byte>, at: nat, target: seq<Sector>, n: nat)
    requires n < |data| && ALLOCLG * n <= |bm|
    ensures Laid(data, bm, at, target, n + 1) == Painting(Part(data[n], bm, n, Laid(data, bm, at, target, n), Base(bm, at, |target|, n)))
  {
  }

  lemma {:induction false} LaidKeeps(data: seq<seq<Sector>>, bm: seq<byte>, at: nat, target: seq<Sector>, n: nat)
    requires EnoughData(data, bm) && n <= FileCount(bm) && InRange(target, at, bm, 8 * |bm|)
    ensures OthersKept(Laid(data, bm, at, target, n), bm, target, at)
  {
    hide StreamBit, Chunk, Rank, Base, InRange, EnoughData, FileCount;
    if n == 0 {
      NothingLaid(data, bm, at, target);
    } else {
      hide Laid;
      LaidKeeps(data, bm, at, target, n - 1);
      var was, now := Laid(data, bm, at, target, n - 1), Laid(data, bm, at, target, n);
      forall t | 0 <= t < |now| && (t < at || !StreamBit(bm, t - at))
        ensures now[t] == target[t]
      {
        LaidNext(data, bm, at, target, n - 1, t);
        assert was[t] == target[t];
        NotInChunk(bm, n - 1, t - (at + 8 * (ALLOCLG * (n - 1))), t - at);
      }
    }
  }

  /** A bit that is not set in the bitmap is not set in the part of a file. */
  lemma {:induction false} NotInChunk(bm: seq<byte>, i: nat, s: int, t: int)
    requires ALLOCLG * i <= |bm| && t == 8 * (ALLOCLG * i) + s && (t < 0 || !StreamBit(bm, t))
    ensures 0 <= s < 8 * |Chunk(bm, i)| ==> !StreamBit(Chunk(bm, i), s)
  {
    hide StreamBit, Chunk;
    if 0 <= s < 8 * |Chunk(bm, i)| {
      ChunkBits(bm, i, s);
    }
  }

  lemma {:induction false} LaidRight(data: seq<seq<Sector>>, bm: seq<byte>, at: nat, target: seq<Sector>, n: nat, i: nat, s: nat)
    requires EnoughData(data, bm) && i < n <= FileCount(bm) && InRange(target, at, bm, 8 * |bm|)
    requires ALLOCLG * i <= |bm| && s < 8 * |Chunk(bm, i)| && StreamBit(Chunk(bm, i), s)
    ensures PlaceRight(Laid(data, bm, at, target, n), data, bm, at, i, s)
    decreases n
  {
    hide StreamBit, Chunk, Rank, Base, Laid, InRange;
    ChunkFits(bm, i);
    var t, c := at + 8 * (ALLOCLG * i) + s, Chunk(bm, i);
    ChunkInRange(target, at, bm, i);
    InRangeAt(target, at + 8 * (ALLOCLG * i), c, 8 * |c|, s);
    LaidNext(data, bm, at, target, n - 1, t);
    MarkRank(c, s, 8 * |c|);
    if i < n - 1 {
      LaidRight(data, bm, at, target, n - 1, i, s);
    }
  }

  lemma {:induction false} MarkRank(bm: seq<byte>, s: nat, n: nat)
    requires s < n && StreamBit(bm, s)
    ensures Rank(bm, s) < Rank(bm, n)
  {
    hide StreamBit;
    RankMonotone(bm, s + 1, n);
  }

  lemma {:induction false} InRangeAt(disk: seq<Sector>, base: nat, bm: seq<byte>, n: nat, s: int)
    requires InRange(disk, base, bm, n)
    ensures 0 <= s < n && StreamBit(bm, s) ==> base + s < |disk|
  {
  }

  /** Laid out with every marked place there, the disk is right. */
  lemma {:induction false} LaidIsRight(data: seq<seq<Sector>>, bm: seq<byte>, at: nat, target: seq<Sector>)
    requires EnoughData(data, bm) && InRange(target, at, bm, 8 * |bm|)
    ensures Right(Laid(data, bm, at, target, FileCount(bm)), data, bm, target, at)
  {
    hide StreamBit, Chunk, Rank, Laid, InRange, FileCount, PlaceRight;
    var nb := FileCount(bm);
    var now := Laid(data, bm, at, target, nb);
    LaidKeeps(data, bm, at, target, nb);
    forall i | 0 <= i < nb
      ensures FileRight(now, data, bm, at, i)
    {
      ChunkFits(bm, i);
      forall s | 0 <= s < 8 * |Chunk(bm, i)| && StreamBit(Chunk(bm, i), s)
        ensures PlaceRight(now, data, bm, at, i, s)
      {
        LaidRight(data, bm, at, target, nb, i, s);
      }
    }
  }

  /** How decompression behaves for one file: passes that fail, then one that does not. */
  datatype Behaviour = Behaviour(attempts: seq<seq<Call>>, calls: seq<Call>)

  /** The files have the shape of an image, and others may follow them. */
  ghost predicate HasImage(files: seq<seq<byte>>, bm: seq<byte>, l: Labels) {
    && bm != [] && Printable(l, bm) && FileCount(bm) <= |files|
    && forall i :: 0 <= i < FileCount(bm) ==> ShapeOf(files[i], bm, l, i)
  }

  /** The sectors of the files of an image. */
  function ImageData(files: seq<seq<byte>>, n: nat): (data: seq<seq<Sector>>)
    requires n <= |files|
    ensures |data| == n && forall i :: 0 <= i < n ==> data[i] == DataOf(files[i])
  {
    seq(n, i requires 0 <= i < n => DataOf(files[i]))
  }

  lemma {:induction false} ImageDataIsEnough(files: seq<seq<byte>>, bm: seq<byte>, l: Labels)
    requires HasImage(files, bm, l)
    ensures EnoughData(ImageData(files, FileCount(bm)), bm)
  {
    hide Printable, ShapeOf, Chunk, Rank, FileCount, DataOf;
    forall i | 0 <= i < FileCount(bm) && ALLOCLG * i <= |bm|
      ensures |DataOf(files[i])| == Rank(Chunk(bm, i), 8 * |Chunk(bm, i)|)
    {
      PartIsFile(files[i], bm, l, i, [], 0);
    }
  }

  /**
    `restore`.  There are no errors exactly if the marked places of every file are on the disk, counted from
    where it stands when the file begins; the sectors are then put there.  That is right exactly if every
    marked place exists.
   */
  method Restore(dev: Device, files: seq<seq<byte>>, how: seq<Behaviour>, ghost bm: seq<byte>, ghost l: Labels) returns (errors: nat)
    requires dev.Valid() && HasImage(files, bm, l) && |how| == |files|
    modifies dev
    ensures dev.Valid() && |dev.sectors| == |old(dev.sectors)|
    ensures errors == 0 <==> Reaches(old(dev.sectors), old(dev.pos), bm, FileCount(bm))
    ensures errors == 0 ==> dev.sectors == Laid(ImageData(files, FileCount(bm)), bm, old(dev.pos), old(dev.sectors), FileCount(bm))
    ensures errors == 0 ==> dev.pos == Base(bm, old(dev.pos), |dev.sectors|, FileCount(bm))
    ensures Right(dev.sectors, ImageData(files, FileCount(bm)), bm, old(dev.sectors), old(dev.pos)) <==> InRange(old(dev.sectors), old(dev.pos), bm, 8 * |bm|)
  {
    hide StreamBit, Painted, InRange, ShapeOf, Printable, IsFile, Chunk, Laid, Base, After, Right, EnoughData, DataOf, Readable, Reaches;
    errors := RestoreFiles(dev, files, how, bm, l);
    ghost var data := ImageData(files, FileCount(bm));
    if InRange(old(dev.sectors), old(dev.pos), bm, 8 * |bm|) {
      AllReached(old(dev.sectors), old(dev.pos), bm);
      ImageDataIsEnough(files, bm, l);
      LaidIsRight(data, bm, old(dev.pos), old(dev.sectors));
    } else if Right(dev.sectors, data, bm, old(dev.sectors), old(dev.pos)) {
      RightInRange(dev.sectors, data, bm, old(dev.sectors), old(dev.pos));
    }
  }

  method RestoreFiles(dev: Device, files: seq<seq<byte>>, how: seq<Behaviour>, ghost bm: seq<byte>, ghost l: Labels) returns (errors: nat)
    requires dev.Valid() && HasImage(files, bm, l) && |how| == |files|
    modifies dev
    ensures dev.Valid() && |dev.sectors| == |old(dev.sectors)|
    ensures errors == 0 <==> Reaches(old(dev.sectors), old(dev.pos), bm, FileCount(bm))
    ensures errors == 0 ==> dev.sectors == Laid(ImageData(files, FileCount(bm)), bm, old(dev.pos), old(dev.sectors), FileCount(bm))
    ensures errors == 0 ==> dev.pos == Base(bm, old(dev.pos), |dev.sectors|, FileCount(bm))
  {
    hide StreamBit, Painted, InRange, ShapeOf, Printable, IsFile, Chunk, Laid, Base, After, DataOf, Readable, Reaches, Overruns;
    var r := new Restorer(dev);
    var filenum: nat := 0;
    errors := 0;
    ghost var nb, at, target := FileCount(bm), dev.pos, dev.sectors;
    ghost var data := ImageData(files, nb);
    NothingLaid(data, bm, at, target);
    while filenum < |files|
      invariant filenum < nb && dev.Valid() && |dev.sectors| == |target|
      invariant errors == 0 <==> Reaches(target, at, bm, filenum)
      invariant errors == 0 ==> dev.pos == Base(bm, at, |target|, filenum) && dev.sectors == Laid(data, bm, at, target, filenum)
      invariant r.fmax == if filenum == 0 then NoNumber else Number(nb)
      decreases |files| - filenum
    {
      ghost var now, pos := dev.sectors, dev.pos;
      PartIsFile(files[filenum], bm, l, filenum, now, pos);
      ghost var j := Part(data[filenum], bm, filenum, now, pos);
      var b := how[filenum];
      r.RestoreFile(files[filenum], b.attempts, b.calls, j, BlocksIn(bm, filenum));
      FileLaid(data, bm, at, target, filenum, now, pos, dev.sectors, errors == 0, r.errors == 0);
      errors := errors + r.errors;
      filenum := filenum + 1;
      if r.fmax.Number? && filenum >= r.fmax.value {
        return;
      }
    }
  }

  lemma {:induction false} NothingLaid(data: seq<seq<Sector>>, bm: seq<byte>, at: nat, target: seq<Sector>)
    ensures Reaches(target, at, bm, 0) && Base(bm, at, |target|, 0) == at && Laid(data, bm, at, target, 0) == target
  {
  }

  /** One file restored. */
  lemma {:induction false} FileLaid(data: seq<seq<Sector>>, bm: seq<byte>, at: nat, target: seq<Sector>, n: nat, was: seq<Sector>, pos: nat, now: seq<Sector>, so: bool, ok: bool)
    requires n < |data| && ALLOCLG * n <= |bm| && |was| == |target| && (so <==> Reaches(target, at, bm, n))
    requires so ==> pos == Base(bm, at, |target|, n) && was == Laid(data, bm, at, target, n)
    requires var j := Part(data[n], bm, n, was, pos); (ok <==> AllPlaces(j)) && (!Overruns(j) ==> Painted(now, j, 8 * |j.bm|))
    ensures so && ok <==> Reaches(target, at, bm, n + 1)
    ensures so ==> Base(bm, at, |target|, n + 1) == After(Chunk(bm, n), pos, |target|)
    ensures so && ok ==> now == Laid(data, bm, at, target, n + 1)
  {
    hide StreamBit, Chunk, Painted, After, Reaches;
    ReachOne(target, at, bm, n);
    if so {
      var j := Part(data[n], bm, n, was, pos);
      LaidStep(data, bm, at, target, n);
      SameSize(was, target, pos, j.bm);
      if ok {
        PaintedIsPainting(now, j);
      }
    }
  }

  lemma {:induction false} SameSize(a: seq<Sector>, b: seq<Sector>, at: nat, bm: seq<byte>)
    requires |a| == |b|
    ensures InRange(a, at, bm, 8 * |bm|) == InRange(b, at, bm, 8 * |bm|)
  {
    hide StreamBit;
  }

  // ----- saving and restoring -------------------------------------------------------------------------

  /** Marked sectors are copied to their places, which all exist, and all others are left alone. */
  ghost predicate Copied(now: seq<Sector>, source: seq<Sector>, from: nat, bm: seq<byte>, target: seq<Sector>, at: nat) {
    && |now| == |target| && OthersKept(now, bm, target, at)
    && forall s :: 0 <= s < 8 * |bm| && StreamBit(bm, s) ==> from + s < |source| && at + s < |now| && now[at + s] == source[from + s]
  }

  /** The sectors that are saved, file by file, from where the disk stands when the file begins. */
  ghost function SourceData(disk: seq<Sector>, from: nat, bm: seq<byte>): (data: seq<seq<Sector>>)
    ensures |data| == FileCount(bm)
  {
    seq(FileCount(bm), i requires 0 <= i < FileCount(bm) => FileData(disk, from, bm, i))
  }

  ghost function FileData(disk: seq<Sector>, from: nat, bm: seq<byte>, i: nat): (data: seq<Sector>) {
    if Standing(disk, from, bm, i) then Kept(disk, Base(bm, from, |disk|, i), Chunk(bm, i), 8 * |Chunk(bm, i)|) else []
  }

  lemma {:induction false} SavedData(file: seq<byte>, disk: seq<Sector>, from: nat, bm: seq<byte>, l: Labels, i: nat)
    requires Printable(l, bm) && i < FileCount(bm) && SavedFrom(file, disk, from, bm, l, i)
    ensures DataOf(file) == FileData(disk, from, bm, i)
  {
    hide StreamBit, Join, Sectors, Rank, Chunk, Header, Padded, Base, Prefix, Contains;
    var c := Chunk(bm, i);
    var kept := Kept(disk, Base(bm, from, |disk|, i), c, 8 * |c|);
    HeaderNumbers(Prefix(l, FileCount(bm), i), c, Join(kept), ALLOC);
    SectorsOfJoin(kept);
  }

  lemma {:induction false} SavedImage(files: seq<seq<byte>>, leftover: seq<seq<byte>>, disk: seq<Sector>, from: nat, bm: seq<byte>, l: Labels)
    requires Printable(l, bm) && |files| == FileCount(bm) && forall i :: 0 <= i < |files| ==> SavedFrom(files[i], disk, from, bm, l, i)
    ensures ImageData(files + leftover, FileCount(bm)) == SourceData(disk, from, bm)
  {
    hide Printable, SavedFrom, FileCount, DataOf, FileData;
    forall i | 0 <= i < |files|
      ensures DataOf(files[i]) == FileData(disk, from, bm, i)
    {
      SavedData(files[i], disk, from, bm, l, i);
    }
  }

  lemma {:induction false} RightIsCopied(now: seq<Sector>, source: seq<Sector>, from: nat, bm: seq<byte>, target: seq<Sector>, at: nat)
    requires InRange(source, from, bm, 8 * |bm|) && Right(now, SourceData(source, from, bm), bm, target, at)
    ensures Copied(now, source, from, bm, target, at)
  {
    hide StreamBit, FileCount, Rank, OthersKept, Chunk, Base, InRange;
    var data := SourceData(source, from, bm);
    forall s | 0 <= s < 8 * |bm| && StreamBit(bm, s)
      ensures from + s < |source| && at + s < |now| && now[at + s] == source[from + s]
    {
      var i, t := ChunkOf(bm, s);
      BaseInPlace(source, from, bm, i);
      assert FileRight(now, data, bm, at, i) && PlaceRight(now, data, bm, at, i, t);
      var c := Chunk(bm, i);
      assert data[i] == Kept(source, from + 8 * (ALLOCLG * i), c, 8 * |c|);
      InRangeAt(source, from, bm, 8 * |bm|, s);
      KeptAt(source, from + 8 * (ALLOCLG * i), c, 8 * |c|, t);
    }
  }

  lemma {:induction false} CopiedInRange(now: seq<Sector>, source: seq<Sector>, from: nat, bm: seq<byte>, target: seq<Sector>, at: nat)
    requires Copied(now, source, from, bm, target, at)
    ensures InRange(source, from, bm, 8 * |bm|) && InRange(target, at, bm, 8 * |bm|)
  {
    hide StreamBit, OthersKept;
  }

  /**
    Saving and restoring, on any two disks.  Each half has errors exactly if a mark of some file is not on its
    disk, counted from where the disk stands when the file begins.  Marked sectors are copied to their places,
    and all others left alone, exactly if every marked sector exists on both disks.
   */
  method RoundTrip(source: Device, target: Device, bm: seq<byte>, l: Labels, stale: nat -> Sector, leftover: seq<seq<byte>>, how: seq<Behaviour>)
    returns (saving: nat, restoring: nat)
    requires source.Valid() && target.Valid() && source != target && bm != [] && Printable(l, bm)
    requires |how| == FileCount(bm) + |leftover|
    modifies source`pos, target
    ensures saving == 0 <==> Reaches(source.sectors, old(source.pos), bm, FileCount(bm))
    ensures restoring == 0 <==> Reaches(old(target.sectors), old(target.pos), bm, FileCount(bm))
    ensures saving == 0 && restoring == 0 ==>
              target.sectors == Laid(SourceData(source.sectors, old(source.pos), bm), bm, old(target.pos), old(target.sectors), FileCount(bm))
    ensures Copied(target.sectors, source.sectors, old(source.pos), bm, old(target.sectors), old(target.pos)) <==>
            InRange(source.sectors, old(source.pos), bm, 8 * |bm|) && InRange(old(target.sectors), old(target.pos), bm, 8 * |bm|)
  {
    hide StreamBit, InRange, Reaches, Laid, Right, Copied, Printable, ShapeOf, SavedFrom, IsFileOf, Base, FileCount, SourceData, ImageData;
    ghost var disk, from, was, at := source.sectors, source.pos, target.sectors, target.pos;
    var files, bytes;
    files, bytes, saving := Save(source, bm, l, stale);
    restoring := Restore(target, files + leftover, how, bm, l);
    if saving == 0 {
      SavedImage(files, leftover, disk, from, bm, l);
    }
    if InRange(disk, from, bm, 8 * |bm|) && InRange(was, at, bm, 8 * |bm|) {
      AllReached(disk, from, bm);
      RightIsCopied(target.sectors, disk, from, bm, was, at);
    } else if Copied(target.sectors, disk, from, bm, was, at) {
      CopiedInRange(target.sectors, disk, from, bm, was, at);
    }
  }

  // ----- disks that are too small -------------------------------------------------------------------------

  /** A marked place that does not exist: the only sector of the disk, which is not marked, is overwritten. */
  method WrongPlaceExample(other: Sector, s: Sector) returns (now: seq<Sector>)
    ensures now == [s] && !StreamBit([4], 0)
  {
    hide StreamBit, Padded, Rank, InRange;
    var dev := new Device([other], 0);
    var r := new Restorer(dev);
    ghost var j := Job([s], [4], [other], 0);
    OneMark();
    NothingInRange(j.target, 0, [4]);
    r.bitmap, r.bitmaplg, r.bitindex, r.errors := Padded([4], ALLOCLG), 1, 0, 0;
    r.strays := 0;
    PaintedNothing(j);
    r.PutSector(s, j);
    TooSmall(j, r.bitindex);
    now := dev.sectors;
  }

  lemma {:induction false} TooSmall(j: Job, i: nat)
    requires j.bm == [4] && |j.target| == 1 && j.at == 0 && i <= 8
    ensures Overruns(j) && Edge(j) == 0 && Rank([4], 1) == 0 && (Rank([4], i) == 1 ==> !InRange(j.target, 0, [4], i))
  {
    OneMark();
    hide StreamBit, Rank;
    BehindIs([4], 0, 1);
    assert StreamBit([4], 2);
  }

  lemma {:induction false} NothingInRange(disk: seq<Sector>, at: nat, bm: seq<byte>)
    ensures InRange(disk, at, bm, 0)
  {
  }

  lemma {:induction false} OneMark()
    ensures forall i :: 0 <= i < 8 ==> StreamBit([4], i) == (i == 2)
    ensures Rank([4], 8) == 1 && forall i :: 0 <= i <= 8 ==> Rank([4], i) == if i > 2 then 1 else 0
  {
    forall i | 0 <= i < 8
      ensures StreamBit([4], i) == (i == 2)
    {
      FourByte(i);
    }
    hide StreamBit, ByteBit, Rank;
    forall i | 0 <= i <= 8
      ensures Rank([4], i) == if i > 2 then 1 else 0
    {
      OneRank([4], i);
    }
    OneRank([4], 8);
  }

  lemma {:induction false} OneRank(bm: seq<byte>, n: nat)
    requires n <= 8 && forall i :: 0 <= i < 8 ==> StreamBit(bm, i) == (i == 2)
    ensures Rank(bm, n) == if n > 2 then 1 else 0
  {
    hide StreamBit;
    if n > 0 {
      OneRank(bm, n - 1);
    }
  }

  lemma {:induction false} FourByte(i: nat)
    requires i < 8
    ensures ByteBit(4, i) == (i == 2)
  {
    assert Pow2(0) == 1 && Pow2(1) == 2 && Pow2(2) == 4 && Pow2(3) == 8;
    hide Pow2;
    if i >= 3 {
      Pow2Monotone(3, i);
    }
  }

  /** Only the first bit is set. */
  lemma {:induction false} FirstBit(c: seq<byte>, n: nat)
    requires |c| > 0 && c[0] == 1 && (forall k :: 1 <= k < |c| ==> c[k] == 0) && n <= 8 * |c|
    ensures forall s :: 0 <= s < n ==> StreamBit(c, s) == (s == 0)
    ensures Rank(c, n) == Behind(c, n) == if n > 0 then 1 else 0
  {
    forall s | 0 <= s < n
      ensures StreamBit(c, s) == (s == 0)
    {
      ZeroByte(s % 8);
      OneByte(s % 8);
    }
    hide StreamBit;
    if n > 0 {
      FirstBit(c, n - 1);
    }
  }

  lemma {:induction false} OneByte(i: nat)
    requires i < 8
    ensures ByteBit(1, i) == (i == 0)
  {
    if i > 0 {
      Pow2Monotone(1, i);
      assert Pow2(1) == 2;
    }
  }

  /** A bitmap for two files, each with its first bit set. */
  function TwoMarks(): (bm: seq<byte>)
    ensures |bm| == ALLOCLG + 1 && FileCount(bm) == 2
  {
    [1] + seq(ALLOCLG - 1, _ => 0) + [1]
  }

  /**
    Two files, each with only its first bit set, and a disk of two sectors.  There are no errors, but sector 1,
    which is not marked, holds the sector that belongs 8 * ALLOCLG sectors behind the start.
   */
  method MisplacedExample(a: Sector, b: Sector, x: Sector) returns (saving: nat, restoring: nat, now: seq<Sector>)
    ensures saving == 0 && restoring == 0 && now == [a, b] && !StreamBit(TwoMarks(), 1) && StreamBit(TwoMarks(), 8 * ALLOCLG)
  {
    hide Printable, Reaches, Laid, SourceData, InRange, StreamBit, Copied;
    var bm, disk := TwoMarks(), seq(8 * ALLOCLG + 1, i => if i == 8 * ALLOCLG then b else a);
    var source := new Device(disk, 0);
    var target := new Device([x, x], 0);
    PlainPrintable();
    saving, restoring := RoundTrip(source, target, bm, PLAIN, _ => a, [], [Behaviour([], []), Behaviour([], [])]);
    now := target.sectors;
    TwoOnSource(disk);
    TwoOnTarget([x, x], SourceData(disk, 0, bm), a, b);
  }

  /** Labels that say nothing. */
  const PLAIN: Labels := Labels(1, [], [[], []])

  lemma {:induction false} PlainPrintable()
    ensures Printable(PLAIN, TwoMarks())
  {
    var bm, first := TwoMarks(), FirstString(1, 2, []);
    TwoChunks();
    hide Chunk, TwoMarks;
    assert Decimal(1) == [49] && Decimal(2) == [50];
    assert first == SECTORS + [49, BAR] + BLOCKS + [50, BAR];
    assert Prefix(PLAIN, 2, 0) == first && Prefix(PLAIN, 2, 1) == [];
    assert |Decimal(ALLOCLG)| == 5;
    NoTag(first, ALLOC);
    NoTag([], ALLOC);
    NoTag([], BLOCKS);
  }

  /** A text without the first byte of a tag does not contain the tag. */
  lemma {:induction false} NoTag(text: seq<byte>, tag: seq<byte>)
    requires tag != [] && forall i :: 0 <= i < |text| ==> text[i] != tag[0]
    ensures !Contains(text, tag)
  {
    forall i | 0 <= i <= |text|
      ensures !At(text, tag, i)
    {
      if i + |tag| <= |text| {
        assert text[i..i + |tag|][0] == text[i];
      }
    }
  }

  lemma {:induction false} TwoOnSource(disk: seq<Sector>)
    requires |disk| == 8 * ALLOCLG + 1
    ensures Reaches(disk, 0, TwoMarks(), 2) && StreamBit(TwoMarks(), 8 * ALLOCLG) && !StreamBit(TwoMarks(), 1)
    ensures SourceData(disk, 0, TwoMarks()) == [[disk[0]], [disk[8 * ALLOCLG]]]
  {
    var bm := TwoMarks();
    TwoChunks();
    var c, d := Chunk(bm, 0), Chunk(bm, 1);
    FirstBit(c, 8 * ALLOCLG);
    FirstBit(d, 8);
    ChunkBits(bm, 0, 1);
    ChunkBits(bm, 1, 0);
    hide StreamBit, Chunk, TwoMarks, Rank;
    SourceBases(bm, |disk|);
    assert Standing(disk, 0, bm, 0) && Standing(disk, 0, bm, 1);
    KeptAt(disk, 0, c, 8 * ALLOCLG, 0);
    KeptAt(disk, 8 * ALLOCLG, d, 8, 0);
    ZeroRank(c);
    ZeroRank(d);
    assert FileData(disk, 0, bm, 0) == [disk[0]] && FileData(disk, 0, bm, 1) == [disk[8 * ALLOCLG]];
  }

  lemma {:induction false} ZeroRank(bm: seq<byte>)
    ensures Rank(bm, 0) == 0
  {
  }

  lemma {:induction false} SourceBases(bm: seq<byte>, size: nat)
    requires |bm| > ALLOCLG && |Chunk(bm, 0)| == ALLOCLG
    ensures Base(bm, 0, size, 0) == 0
    ensures Base(bm, 0, size, 1) == if size >= 8 * ALLOCLG then 8 * ALLOCLG else Behind(Chunk(bm, 0), 8 * ALLOCLG)
  {
    hide Chunk, Behind;
    assert Base(bm, 0, size, 0) == 0;
  }

  lemma {:induction false} TwoOnTarget(disk: seq<Sector>, data: seq<seq<Sector>>, a: Sector, b: Sector)
    requires |disk| == 2 && data == [[a], [b]]
    ensures Reaches(disk, 0, TwoMarks(), 2) && Laid(data, TwoMarks(), 0, disk, 2) == [a, b]
  {
    var bm := TwoMarks();
    TwoChunks();
    var c, d := Chunk(bm, 0), Chunk(bm, 1);
    FirstBit(c, 8 * ALLOCLG);
    FirstBit(d, 8);
    hide StreamBit, Chunk, TwoMarks, Rank;
    SourceBases(bm, 2);
    assert Standing(disk, 0, bm, 0) && Standing(disk, 0, bm, 1);
    ZeroRank(c);
    ZeroRank(d);
    NothingLaid(data, bm, 0, disk);
    LaidStep(data, bm, 0, disk, 0);
    LaidStep(data, bm, 0, disk, 1);
    var one, two := Laid(data, bm, 0, disk, 1), Laid(data, bm, 0, disk, 2);
    hide Laid, Base;
    assert one[0] == a && one[1] == disk[1];
    assert two[0] == one[0] && two[1] == b;
  }

  lemma {:induction false} TwoChunks()
    ensures var c := Chunk(TwoMarks(), 0); |c| == ALLOCLG && c[0] == 1 && forall k :: 1 <= k < |c| ==> c[k] == 0
    ensures Chunk(TwoMarks(), 1) == [1]
  {
  }
}
