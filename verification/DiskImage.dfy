/**
  Disk images: `compress_volume` writes the sectors that a bitmap marks, `restore` puts them back.

  An image is a list of files.  Each holds a header, part of the bitmap and the marked sectors.
  Compression is taken to be the identity; `restore` sees the bytes of a file in pieces of any size.
 */
module DiskImage {
  import opened Bits
  import opened ImageHeader

  const SECTOR: nat := 512
  const TOTALLG: nat := 24064
  const ALLOCLG: nat := 22016
  /** The size of `firststring`. */
  const FIRSTLG: nat := 200

  type Sector = s: seq<byte> | |s| == SECTOR witness seq(SECTOR, _ => 0)

  // ----- marked sectors ---------------------------------------------------------------------

  /** How many of the first `n` bits are set. */
  function Rank(bm: seq<byte>, n: nat): (r: nat)
    ensures r <= n
  {
    if n == 0 then 0 else Rank(bm, n - 1) + (if StreamBit(bm, n - 1) then 1 else 0)
  }

  /** The disk has every marked sector, from `base` on. */
  ghost predicate InRange(disk: seq<Sector>, base: nat, bm: seq<byte>, n: nat) {
    forall s :: 0 <= s < n && StreamBit(bm, s) ==> base + s < |disk|
  }

  ghost function Kept(disk: seq<Sector>, base: nat, bm: seq<byte>, n: nat): (r: seq<Sector>)
    requires InRange(disk, base, bm, n)
    ensures |r| == Rank(bm, n)
  {
    if n == 0 then []
    else
      var r := Kept(disk, base, bm, n - 1);
      if StreamBit(bm, n - 1) then r + [disk[base + n - 1]] else r
  }

  function Join(l: seq<Sector>): (s: seq<byte>)
    ensures |s| == SECTOR * |l|
  {
    if l == [] then [] else Join(l[..|l| - 1]) + l[|l| - 1]
  }

  lemma {:induction false} JoinAppend(l: seq<Sector>, x: Sector)
    ensures Join(l + [x]) == Join(l) + x
  {
    var m := l + [x];
    assert m[..|m| - 1] == l;
  }

  lemma {:induction false} JoinAt(l: seq<Sector>, i: nat)
    requires i < |l|
    ensures SECTOR * i + SECTOR <= |Join(l)| && Join(l)[SECTOR * i..SECTOR * i + SECTOR] == l[i]
  {
    var n := |l| - 1;
    var s := Join(l);
    if i < n {
      JoinAt(l[..n], i);
      assert s[SECTOR * i..SECTOR * i + SECTOR] == Join(l[..n])[SECTOR * i..SECTOR * i + SECTOR];
    } else {
      assert s[SECTOR * n..] == l[n];
    }
  }

  lemma {:induction false} RankMonotone(bm: seq<byte>, i: nat, j: nat)
    requires i <= j
    ensures Rank(bm, i) <= Rank(bm, j)
    decreases j
  {
    if i < j {
      RankMonotone(bm, i, j - 1);
    }
  }

  /** A marked sector is found among the kept ones by the number of marks before it. */
  lemma {:induction false} KeptAt(disk: seq<Sector>, base: nat, bm: seq<byte>, n: nat, i: nat)
    requires InRange(disk, base, bm, n) && i < n && StreamBit(bm, i)
    ensures Rank(bm, i) < Rank(bm, n) && Kept(disk, base, bm, n)[Rank(bm, i)] == disk[base + i]
  {
    if i < n - 1 {
      KeptAt(disk, base, bm, n - 1, i);
    }
  }

  /** Just behind the last mark among the first `n` bits. */
  function Behind(bm: seq<byte>, n: nat): (k: nat)
    ensures k <= n && (k > 0 ==> StreamBit(bm, k - 1)) && forall s :: k <= s < n ==> !StreamBit(bm, s)
  {
    if n == 0 || StreamBit(bm, n - 1) then n else Behind(bm, n - 1)
  }

  lemma {:induction false} BehindIs(bm: seq<byte>, k: nat, n: nat)
    requires k <= n && (k == 0 || StreamBit(bm, k - 1)) && forall s :: k <= s < n ==> !StreamBit(bm, s)
    ensures Behind(bm, n) == k
  {
    hide StreamBit;
    var b := Behind(bm, n);
    assert (k == 0 || StreamBit(bm, k - 1)) && (b == 0 || StreamBit(bm, b - 1));
  }

  /** Where a disk of `size` sectors is after a file that begins at `at`: the seek over what comes after the last mark may fail. */
  function After(bm: seq<byte>, at: nat, size: nat): (pos: nat) {
    if at + 8 * |bm| <= size then at + 8 * |bm| else at + Behind(bm, 8 * |bm|)
  }

  lemma {:induction false} PadBits(bm: seq<byte>, i: nat)
    requires |bm| <= ALLOCLG
    ensures |Padded(bm, ALLOCLG)| == ALLOCLG
    ensures i < 8 * ALLOCLG ==> StreamBit(bm, i) == ByteBit(Padded(bm, ALLOCLG)[i / 8], i % 8)
  {
    ZeroByte(i % 8);
  }

  lemma {:induction false} ZeroByte(i: nat)
    requires i < 8
    ensures !ByteBit(0, i)
  {
  }

  // ----- the format ---------------------------------------------------------------------------

  /** One file of an image: the sectors from `base` on that `bm` marks. */
  ghost function FileOf(disk: seq<Sector>, base: nat, bm: seq<byte>, prefix: seq<byte>): (s: seq<byte>)
    requires InRange(disk, base, bm, 8 * |bm|)
  {
    Header(prefix, |bm|) + Padded(bm, ALLOCLG) + Join(Kept(disk, base, bm, 8 * |bm|))
  }

  /** The parts of a file: 2048 bytes of text, the bitmap, and from byte 24064 on the sectors. */
  lemma {:induction false} FileLayout(disk: seq<Sector>, base: nat, bm: seq<byte>, prefix: seq<byte>)
    requires InRange(disk, base, bm, 8 * |bm|) && Fits(prefix, |bm|) && |bm| <= ALLOCLG
    ensures var f := FileOf(disk, base, bm, prefix);
            && |f| == 24064 + 512 * Rank(bm, 8 * |bm|)
            && Text(f[..2048]) == prefix + AllocLine(|bm|)
            && f[2048..2048 + |bm|] == bm
            && forall i :: 0 <= i < 8 * |bm| && StreamBit(bm, i) ==>
                 var at := 24064 + 512 * Rank(bm, i); at + 512 <= |f| && f[at..at + 512] == disk[base + i]
  {
    hide StreamBit, Header, Fits, AllocLine, Text, Rank, Kept, Join;
    HeaderText(prefix, |bm|);
    var f, sectors := FileOf(disk, base, bm, prefix), Kept(disk, base, bm, 8 * |bm|);
    var head, table := Header(prefix, |bm|), Padded(bm, ALLOCLG);
    assert f[..2048] == head;
    assert f[2048..2048 + |bm|] == table[..|bm|];
    assert f[24064..] == Join(sectors);
    forall i | 0 <= i < 8 * |bm| && StreamBit(bm, i)
      ensures var at := 24064 + 512 * Rank(bm, i); at + 512 <= |f| && f[at..at + 512] == disk[base + i]
    {
      KeptAt(disk, base, bm, 8 * |bm|, i);
      JoinAt(sectors, Rank(bm, i));
      SliceBehind(f, 24064, Join(sectors), 512 * Rank(bm, i), 512);
    }
  }

  lemma {:induction false} SliceBehind(f: seq<byte>, from: nat, rest: seq<byte>, at: nat, n: nat)
    requires from <= |f| && f[from..] == rest && at + n <= |rest|
    ensures from + at + n <= |f| && f[from + at..from + at + n] == rest[at..at + n]
  {
    assert forall k :: 0 <= k < |rest| ==> rest[k] == f[from + k];
  }

  // ----- devices ---------------------------------------------------------------------------------

  class Device {
    var sectors: seq<Sector>
    /** In sectors: every access is a whole number of them. */
    var pos: nat

    ghost predicate Valid()
      reads this
    {
      pos <= |sectors|
    }

    constructor (sectors: seq<Sector>, pos: nat)
      requires pos <= |sectors|
      ensures Valid() && this.sectors == sectors && this.pos == pos
    {
      this.sectors, this.pos := sectors, pos;
    }

    /** `lseek` forward; a seek past the end fails and leaves the position. */
    method Seek(bytes: nat) returns (ok: bool)
      requires Valid() && bytes % SECTOR == 0
      modifies this`pos
      ensures Valid() && (ok <==> old(pos) + bytes / SECTOR <= |sectors|)
      ensures pos == if ok then old(pos) + bytes / SECTOR else old(pos)
    {
      ok := pos + bytes / SECTOR <= |sectors|;
      if ok {
        pos := pos + bytes / SECTOR;
      }
    }

    method Read() returns (ok: bool, s: Sector)
      requires Valid()
      modifies this`pos
      ensures Valid() && (ok <==> old(pos) < |sectors|)
      ensures pos == if ok then old(pos) + 1 else old(pos)
      ensures ok ==> s == sectors[old(pos)]
    {
      ok, s := pos < |sectors|, seq(SECTOR, _ => 0);
      if ok {
        s := sectors[pos];
        pos := pos + 1;
      }
    }

    method Write(s: Sector) returns (ok: bool)
      requires Valid()
      modifies this
      ensures Valid() && (ok <==> old(pos) < |old(sectors)|)
      ensures pos == if ok then old(pos) + 1 else old(pos)
      ensures if ok then sectors == old(sectors)[old(pos) := s] else sectors == old(sectors)
    {
      ok := pos < |sectors|;
      if ok {
        sectors := sectors[pos := s];
        pos := pos + 1;
      }
    }
  }

  // ----- saving --------------------------------------------------------------------------------------

  /** The state of the loop of `compress_volume` over one file, with its compressor. */
  class Saver {
    const dev: Device
    /** What the frame buffer holds where the n-th failed read should have put a sector. */
    const stale: nat -> Sector
    var skip: nat
    var buffer: seq<byte>
    /** What the compressor was given. */
    var stream: seq<byte>
    var header: bool
    var cbytes: nat
    /** How many seeks and reads failed.  They are reported, and the loop goes on. */
    var errors: nat

    /** What holds after `i` bits, errors or not: the size of the data, and that `cbytes` counts all sectors passed. */
    ghost predicate Shaped(bm: seq<byte>, i: nat, head: seq<byte>, was: nat)
      reads this, dev
    {
      && dev.Valid() && !header
      && skip % SECTOR == 0 && skip <= SECTOR * i && |buffer| % SECTOR == 0 && |buffer| < TOTALLG
      && head <= stream && |stream| + |buffer| == |head| + SECTOR * Rank(bm, i)
      && cbytes + |buffer| + skip == was + SECTOR * i
    }

    /**
      Without errors, the sectors passed over are read or about to be skipped, and what was read is
      compressed or in the buffer.  There are errors exactly if a marked sector is missing.
     */
    ghost predicate Saved(base: nat, bm: seq<byte>, i: nat, head: seq<byte>, was: nat)
      reads this, dev
    {
      && Shaped(bm, i, head, was)
      && (errors == 0 <==> InRange(dev.sectors, base, bm, i))
      && (errors == 0 ==> dev.pos == base + Behind(bm, i) && skip == SECTOR * (i - Behind(bm, i)))
      && (errors == 0 ==> stream + buffer == head + Join(Kept(dev.sectors, base, bm, i)))
    }

    /** `compress_init`. */
    constructor (dev: Device, bytes: nat, stale: nat -> Sector)
      ensures this.dev == dev && skip == 0 && buffer == [] && stream == [] && header && cbytes == bytes && errors == 0
    {
      this.dev, this.stale := dev, stale;
      skip, buffer, stream, header, cbytes, errors := 0, [], [], true, bytes, 0;
    }

    /** `compress_data`. */
    method CompressData(data: seq<byte>)
      modifies this`stream, this`cbytes, this`header
      ensures stream == old(stream) + data && !header
      ensures cbytes == if old(header) then old(cbytes) else old(cbytes) + |data|
    {
      stream := stream + data;
      if !header {
        cbytes := cbytes + |data|;
      }
      header := false;
    }

    /** Seeks to a marked sector and reads it.  A seek or a read that fails is counted, and something is taken for the sector. */
    method Fetch() returns (s: Sector)
      requires dev.Valid() && skip % SECTOR == 0
      modifies this`cbytes, this`errors, dev`pos
      ensures dev.Valid() && cbytes == old(cbytes) + skip && errors >= old(errors)
      ensures var at := old(dev.pos) + skip / SECTOR;
              if at < |dev.sectors| then errors == old(errors) && s == dev.sectors[at] && dev.pos == at + 1 else errors > old(errors)
    {
      if skip > 0 {
        var ok := dev.Seek(skip);
        if !ok {
          errors := errors + 1;
        }
        cbytes := cbytes + skip;
      }
      var ok;
      ok, s := dev.Read();
      if !ok {
        s := stale(errors);
        errors := errors + 1;
      }
    }

    /** One bit of the bitmap. */
    method SaveBit(marked: bool, ghost base: nat, ghost bm: seq<byte>, ghost i: nat, ghost head: seq<byte>, ghost was: nat)
      requires Saved(base, bm, i, head, was) && marked == StreamBit(bm, i)
      modifies this, dev`pos
      ensures Saved(base, bm, i + 1, head, was)
    {
      hide Join, StreamBit;
      RangeStep(dev.sectors, base, bm, i);
      if !marked {
        skip := skip + SECTOR;
        return;
      }
      var s := Fetch();
      if errors == 0 {
        JoinAppend(Kept(dev.sectors, base, bm, i), s);
        Grown(stream, buffer, head, Join(Kept(dev.sectors, base, bm, i)), s);
      }
      skip, buffer := 0, buffer + s;
      if |buffer| == TOTALLG {
        CompressData(buffer);
        assert stream + [] == stream;
        buffer := [];
      }
    }

    /** The eight bits of one byte. */
    method SaveByte(x: byte, ghost base: nat, ghost bm: seq<byte>, ghost j: nat, ghost head: seq<byte>, ghost was: nat)
      requires Saved(base, bm, 8 * j, head, was) && j < |bm| && x == bm[j]
      modifies this, dev`pos
      ensures Saved(base, bm, 8 * j + 8, head, was)
    {
      hide Saved, StreamBit, Pow2;
      var k := 1;
      ghost var b := 0;
      MaskDoubles(0);
      while k < 256
        invariant b <= 8 && k == Pow2(b) && Saved(base, bm, 8 * j + b, head, was)
        decreases 8 - b
      {
        ByteMask(b);
        BitOfByte(bm, j, b);
        MaskDoubles(b);
        SaveBit((x / k) % 2 == 1, base, bm, 8 * j + b, head, was);
        k, b := k + k, b + 1;
      }
      ByteMask(b);
    }

    /** One file: header, bitmap, marked sectors. */
    method SaveFile(prefix: seq<byte>, bm: seq<byte>)
      requires dev.Valid() && skip == 0 && buffer == [] && stream == [] && header && |bm| <= ALLOCLG && errors == 0
      modifies this, dev`pos
      ensures dev.Valid() && (errors == 0 <==> InRange(dev.sectors, old(dev.pos), bm, 8 * |bm|))
      ensures errors == 0 ==> stream == FileOf(dev.sectors, old(dev.pos), bm, prefix)
      ensures errors == 0 ==> dev.pos == After(bm, old(dev.pos), |dev.sectors|)
      ensures cbytes == old(cbytes) + 4096 * |bm|
      ensures var head := Header(prefix, |bm|) + Padded(bm, ALLOCLG);
              head <= stream && |stream| == |head| + SECTOR * Rank(bm, 8 * |bm|)
    {
      hide Join, Rank, StreamBit, Header;
      ghost var base, was := dev.pos, cbytes;
      ghost var head := Header(prefix, |bm|) + Padded(bm, ALLOCLG);
      CompressData(Header(prefix, |bm|) + Padded(bm, ALLOCLG));
      NothingSaved(base, bm, head);
      SaveSectors(bm, base, head, was);
      ghost var all := stream + buffer;
      if |buffer| > 0 {
        CompressData(buffer);
        buffer := [];
      }
      assert stream == all;
      if skip > 0 {
        var moved := dev.Seek(skip);
        cbytes := cbytes + skip;
        skip := 0;
      }
    }

    lemma NothingSaved(base: nat, bm: seq<byte>, head: seq<byte>)
      requires dev.Valid() && skip == 0 && buffer == [] && stream == [] + head && !header && errors == 0 && dev.pos == base
      ensures Saved(base, bm, 0, head, cbytes)
    {
      JoinNothing();
      assert stream + buffer == head + Join(Kept(dev.sectors, base, bm, 0));
    }

    method SaveSectors(bm: seq<byte>, ghost base: nat, ghost head: seq<byte>, ghost was: nat)
      requires |bm| <= ALLOCLG && Saved(base, bm, 0, head, was)
      modifies this, dev`pos
      ensures Saved(base, bm, 8 * |bm|, head, was)
    {
      hide Saved;
      for j := 0 to |bm|
        invariant Saved(base, bm, 8 * j, head, was)
      {
        SaveByte(bm[j], base, bm, j, head, was);
      }
    }
  }

  lemma {:induction false} RangeStep(disk: seq<Sector>, base: nat, bm: seq<byte>, i: nat)
    ensures InRange(disk, base, bm, i + 1) <==> InRange(disk, base, bm, i) && (StreamBit(bm, i) ==> base + i < |disk|)
  {
    hide StreamBit;
  }

  lemma {:induction false} JoinNothing()
    ensures Join([]) == []
  {
  }

  lemma {:induction false} Grown(stream: seq<byte>, buffer: seq<byte>, head: seq<byte>, kept: seq<byte>, s: seq<byte>)
    requires stream + buffer == head + kept
    ensures stream + (buffer + s) == head + (kept + s)
    ensures (stream + (buffer + s)) == (stream + buffer) + s
  {
    assert stream + (buffer + s) == (stream + buffer) + s;
    assert head + (kept + s) == (head + kept) + s;
  }

  lemma {:induction false} MaskDoubles(b: nat)
    ensures Pow2(b + 1) == Pow2(b) + Pow2(b) && Pow2(0) == 1
  {
  }

  lemma {:induction false} BitOfByte(bm: seq<byte>, j: nat, b: nat)
    requires j < |bm| && b < 8
    ensures StreamBit(bm, 8 * j + b) == ((bm[j] / Pow2(b)) % 2 == 1)
  {
    hide Pow2;
    var i := 8 * j + b;
    assert i / 8 == j && i % 8 == b;
  }

  lemma {:induction false} ByteMask(b: nat)
    requires b <= 8
    ensures Pow2(b) < 256 <==> b < 8
  {
    assert Pow2(3) == 8 && Pow2(7) == 128;
    Pow2Add(7, 1);
    if b < 8 {
      Pow2Monotone(b, 7);
    }
  }

  // ----- a volume ----------------------------------------------------------------------------------

  function FileCount(bm: seq<byte>): (n: nat) {
    (|bm| + ALLOCLG - 1) / ALLOCLG
  }

  /** The part of the bitmap that goes into file `i`. */
  function Chunk(bm: seq<byte>, i: nat): (c: seq<byte>)
    requires ALLOCLG * i <= |bm|
    ensures |c| <= ALLOCLG && (i + 1 == FileCount(bm) ==> ALLOCLG * i + |c| == |bm|) && (i + 1 < FileCount(bm) ==> |c| == ALLOCLG)
  {
    if ALLOCLG * i + ALLOCLG < |bm| then bm[ALLOCLG * i..ALLOCLG * i + ALLOCLG] else bm[ALLOCLG * i..]
  }

  /** What the caller adds to the headers. */
  datatype Labels = Labels(sectors: nat, info: seq<byte>, notes: seq<seq<byte>>)

  function Prefix(l: Labels, nb: nat, i: nat): (s: seq<byte>)
    requires i < |l.notes|
  {
    if i == 0 then FirstString(l.sectors, nb, l.info + l.notes[0]) else l.notes[i]
  }

  /** The labels fit into the buffers they are printed to, and repeat no tag. */
  ghost predicate Printable(l: Labels, bm: seq<byte>) {
    && |l.notes| == FileCount(bm) && |FirstString(l.sectors, FileCount(bm), l.info)| < FIRSTLG
    && forall i :: 0 <= i < FileCount(bm) && ALLOCLG * i <= |bm| ==>
         && Fits(Prefix(l, FileCount(bm), i), |Chunk(bm, i)|)
         && (i > 0 ==> !Contains(l.notes[i], BLOCKS))
  }

  /** File `i` of the image of the sectors from `base` on. */
  ghost predicate IsFileOf(file: seq<byte>, disk: seq<Sector>, base: nat, bm: seq<byte>, l: Labels, i: nat)
    requires i < |l.notes|
  {
    && ALLOCLG * i <= |bm|
    && InRange(disk, base + 8 * (ALLOCLG * i), Chunk(bm, i), 8 * |Chunk(bm, i)|)
    && file == FileOf(disk, base + 8 * (ALLOCLG * i), Chunk(bm, i), Prefix(l, FileCount(bm), i))
  }

  lemma {:induction false} ChunkBits(bm: seq<byte>, i: nat, s: nat)
    requires ALLOCLG * i <= |bm| && s < 8 * |Chunk(bm, i)|
    ensures StreamBit(Chunk(bm, i), s) == StreamBit(bm, 8 * (ALLOCLG * i) + s)
  {
    var t := 8 * (ALLOCLG * i) + s;
    assert t / 8 == ALLOCLG * i + s / 8 && t % 8 == s % 8;
  }

  lemma {:induction false} ChunkInRange(disk: seq<Sector>, base: nat, bm: seq<byte>, i: nat)
    requires InRange(disk, base, bm, 8 * |bm|) && ALLOCLG * i <= |bm|
    ensures InRange(disk, base + 8 * (ALLOCLG * i), Chunk(bm, i), 8 * |Chunk(bm, i)|)
    ensures base + 8 * (ALLOCLG * i) > |disk| ==> forall s :: 0 <= s < 8 * |Chunk(bm, i)| ==> !StreamBit(Chunk(bm, i), s)
  {
    hide StreamBit;
    forall s | 0 <= s < 8 * |Chunk(bm, i)|
      ensures StreamBit(Chunk(bm, i), s) ==> base + 8 * (ALLOCLG * i) + s < |disk|
    {
      ChunkBits(bm, i, s);
    }
  }

  lemma {:induction false} NothingKept(disk: seq<Sector>, base: nat, base': nat, bm: seq<byte>, n: nat)
    requires forall s :: 0 <= s < n ==> !StreamBit(bm, s)
    ensures Kept(disk, base, bm, n) == Kept(disk, base', bm, n)
  {
    if n > 0 {
      NothingKept(disk, base, base', bm, n - 1);
    }
  }

  /** Where a disk of `size` sectors is when file `i` begins, if nothing was missed before. */
  function Base(bm: seq<byte>, at: nat, size: nat, i: nat): (pos: nat) {
    if i == 0 then at
    else
      var pos := Base(bm, at, size, i - 1);
      if ALLOCLG * (i - 1) <= |bm| then After(Chunk(bm, i - 1), pos, size) else pos
  }

  /** All marks of file `i` are on the disk, counted from where it begins. */
  ghost predicate Standing(disk: seq<Sector>, at: nat, bm: seq<byte>, i: nat) {
    ALLOCLG * i <= |bm| && InRange(disk, Base(bm, at, |disk|, i), Chunk(bm, i), 8 * |Chunk(bm, i)|)
  }

  ghost predicate Reaches(disk: seq<Sector>, at: nat, bm: seq<byte>, n: nat) {
    forall i :: 0 <= i < n ==> Standing(disk, at, bm, i)
  }

  /** A file that begins at `pos` is where it belongs, `off` sectors from the start, or belongs past the end. */
  predicate InPlace(pos: nat, base: nat, off: nat, size: nat) {
    pos == base + off || base + off > size
  }

  ghost predicate Marks(bm: seq<byte>) {
    exists s :: 0 <= s < 8 * |bm| && StreamBit(bm, s)
  }

  /** No file begins after its place. */
  lemma {:induction false} BaseLow(bm: seq<byte>, at: nat, size: nat, i: nat)
    requires i < FileCount(bm)
    ensures Base(bm, at, size, i) <= at + 8 * (ALLOCLG * i)
  {
    hide Behind, Chunk;
    if i > 0 {
      ChunkFits(bm, i - 1);
      BaseLow(bm, at, size, i - 1);
    }
  }

  /** If every marked sector exists, every file begins in its place, or has no marks. */
  lemma {:induction false} BaseInPlace(disk: seq<Sector>, at: nat, bm: seq<byte>, i: nat)
    requires InRange(disk, at, bm, 8 * |bm|) && i < FileCount(bm)
    ensures InPlace(Base(bm, at, |disk|, i), at, 8 * (ALLOCLG * i), |disk|) && Standing(disk, at, bm, i)
    ensures Marks(Chunk(bm, i)) ==> Base(bm, at, |disk|, i) == at + 8 * (ALLOCLG * i)
  {
    hide Behind, Chunk, StreamBit;
    ChunkFits(bm, i);
    ChunkInRange(disk, at, bm, i);
    if i > 0 {
      ChunkFits(bm, i - 1);
      BaseInPlace(disk, at, bm, i - 1);
    }
  }

  lemma {:induction false} AllReached(disk: seq<Sector>, at: nat, bm: seq<byte>)
    requires InRange(disk, at, bm, 8 * |bm|)
    ensures Reaches(disk, at, bm, FileCount(bm))
  {
    hide InRange, Standing;
    forall i | 0 <= i < FileCount(bm)
      ensures Standing(disk, at, bm, i)
    {
      BaseInPlace(disk, at, bm, i);
    }
  }

  /** The file that a bit belongs to. */
  lemma {:induction false} ChunkOf(bm: seq<byte>, s: nat) returns (i: nat, t: nat)
    requires s < 8 * |bm|
    ensures i < FileCount(bm) && ALLOCLG * i <= |bm| && t < 8 * |Chunk(bm, i)| && s == 8 * (ALLOCLG * i) + t
    ensures StreamBit(Chunk(bm, i), t) == StreamBit(bm, s)
  {
    hide StreamBit;
    i := s / (8 * ALLOCLG);
    t := s % (8 * ALLOCLG);
    ChunkBits(bm, i, t);
  }

  lemma {:induction false} ChunksInRange(disk: seq<Sector>, at: nat, bm: seq<byte>)
    requires forall i :: 0 <= i < FileCount(bm) && ALLOCLG * i <= |bm| ==> InRange(disk, at + 8 * (ALLOCLG * i), Chunk(bm, i), 8 * |Chunk(bm, i)|)
    ensures InRange(disk, at, bm, 8 * |bm|)
  {
    hide StreamBit, Chunk, FileCount;
    forall s | 0 <= s < 8 * |bm| && StreamBit(bm, s)
      ensures at + s < |disk|
    {
      var i, t := ChunkOf(bm, s);
      assert InRange(disk, at + 8 * (ALLOCLG * i), Chunk(bm, i), 8 * |Chunk(bm, i)|);
    }
  }

  /** When nothing is missed: no marked sector is missing exactly if every file with a mark begins in its place. */
  lemma {:induction false} ReachedInPlace(disk: seq<Sector>, at: nat, bm: seq<byte>)
    requires Reaches(disk, at, bm, FileCount(bm))
    ensures InRange(disk, at, bm, 8 * |bm|) <==>
            forall i :: 0 <= i < FileCount(bm) && ALLOCLG * i <= |bm| && Marks(Chunk(bm, i)) ==> Base(bm, at, |disk|, i) == at + 8 * (ALLOCLG * i)
  {
    hide StreamBit, Chunk, FileCount, Base, InRange;
    if InRange(disk, at, bm, 8 * |bm|) {
      forall i | 0 <= i < FileCount(bm) && ALLOCLG * i <= |bm|
        ensures Marks(Chunk(bm, i)) ==> Base(bm, at, |disk|, i) == at + 8 * (ALLOCLG * i)
      {
        BaseInPlace(disk, at, bm, i);
      }
    } else if forall i :: 0 <= i < FileCount(bm) && ALLOCLG * i <= |bm| && Marks(Chunk(bm, i)) ==> Base(bm, at, |disk|, i) == at + 8 * (ALLOCLG * i) {
      forall i | 0 <= i < FileCount(bm) && ALLOCLG * i <= |bm|
        ensures InRange(disk, at + 8 * (ALLOCLG * i), Chunk(bm, i), 8 * |Chunk(bm, i)|)
      {
        assert Standing(disk, at, bm, i);
        NoMarkThere(disk, at + 8 * (ALLOCLG * i), Chunk(bm, i));
      }
      ChunksInRange(disk, at, bm);
    }
  }

  lemma {:induction false} NoMarkThere(disk: seq<Sector>, at: nat, bm: seq<byte>)
    ensures Marks(bm) || InRange(disk, at, bm, 8 * |bm|)
  {
    hide StreamBit;
  }

  lemma {:induction false} ChunkFits(bm: seq<byte>, i: nat)
    requires i < FileCount(bm)
    ensures ALLOCLG * i <= |bm|
    ensures i + 1 < FileCount(bm) ==> ALLOCLG * (i + 1) <= |bm| && |Chunk(bm, i)| == ALLOCLG
    ensures i + 1 == FileCount(bm) ==> ALLOCLG * i + |Chunk(bm, i)| == |bm|
  {
  }

  /** File `i`, read from where the disk is when it begins. */
  ghost predicate SavedFrom(file: seq<byte>, disk: seq<Sector>, at: nat, bm: seq<byte>, l: Labels, i: nat)
    requires i < |l.notes|
  {
    Standing(disk, at, bm, i) && file == FileOf(disk, Base(bm, at, |disk|, i), Chunk(bm, i), Prefix(l, FileCount(bm), i))
  }

  /** If every marked sector exists, the files are those of the image. */
  lemma {:induction false} SavedInPlace(file: seq<byte>, disk: seq<Sector>, at: nat, bm: seq<byte>, l: Labels, i: nat)
    requires i < |l.notes| && i < FileCount(bm) && InRange(disk, at, bm, 8 * |bm|) && SavedFrom(file, disk, at, bm, l, i)
    ensures IsFileOf(file, disk, at, bm, l, i)
  {
    hide StreamBit, Join, Header, Rank, Chunk, Base;
    var c := Chunk(bm, i);
    BaseInPlace(disk, at, bm, i);
    ChunkInRange(disk, at, bm, i);
    if !Marks(c) {
      NothingKept(disk, Base(bm, at, |disk|, i), at + 8 * (ALLOCLG * i), c, 8 * |c|);
    }
  }

  /** The files are those of the image exactly if every marked sector exists. */
  lemma {:induction false} ImageOfWhole(files: seq<seq<byte>>, disk: seq<Sector>, at: nat, bm: seq<byte>, l: Labels)
    requires |files| == FileCount(bm) <= |l.notes|
    requires InRange(disk, at, bm, 8 * |bm|) ==> forall i :: 0 <= i < |files| ==> SavedFrom(files[i], disk, at, bm, l, i)
    ensures InRange(disk, at, bm, 8 * |bm|) <==> forall i :: 0 <= i < |files| ==> IsFileOf(files[i], disk, at, bm, l, i)
  {
    hide StreamBit, Chunk, FileCount, InRange, SavedFrom, FileOf;
    if InRange(disk, at, bm, 8 * |bm|) {
      forall i | 0 <= i < |files|
        ensures IsFileOf(files[i], disk, at, bm, l, i)
      {
        SavedInPlace(files[i], disk, at, bm, l, i);
      }
    } else if forall i :: 0 <= i < |files| ==> IsFileOf(files[i], disk, at, bm, l, i) {
      forall i | 0 <= i < FileCount(bm) && ALLOCLG * i <= |bm|
        ensures InRange(disk, at + 8 * (ALLOCLG * i), Chunk(bm, i), 8 * |Chunk(bm, i)|)
      {
        assert IsFileOf(files[i], disk, at, bm, l, i);
      }
      ChunksInRange(disk, at, bm);
    }
  }

  /** Header, bitmap and as many sectors as are marked: what a file looks like even after read errors. */
  ghost predicate FileShape(file: seq<byte>, bm: seq<byte>, prefix: seq<byte>) {
    var head := Header(prefix, |bm|) + Padded(bm, ALLOCLG);
    head <= file && |file| == |head| + SECTOR * Rank(bm, 8 * |bm|)
  }

  ghost predicate ShapeOf(file: seq<byte>, bm: seq<byte>, l: Labels, i: nat)
    requires i < |l.notes|
  {
    ALLOCLG * i <= |bm| && FileShape(file, Chunk(bm, i), Prefix(l, FileCount(bm), i))
  }

  /**
    `compress_volume`.  It never stops; errors are reported.  The seek at the end of a file is not checked:
    there are no errors exactly if the marks of every file are on the disk from where it is then.  The files
    are those of the image exactly if every marked sector exists.
   */
  method Save(dev: Device, bm: seq<byte>, l: Labels, stale: nat -> Sector) returns (files: seq<seq<byte>>, bytes: nat, errors: nat)
    requires dev.Valid() && Printable(l, bm)
    modifies dev`pos
    ensures dev.Valid() && |files| == FileCount(bm) && bytes == 4096 * |bm|
    ensures forall i :: 0 <= i < |files| ==> ShapeOf(files[i], bm, l, i)
    ensures errors == 0 <==> Reaches(dev.sectors, old(dev.pos), bm, FileCount(bm))
    ensures errors == 0 ==> dev.pos == Base(bm, old(dev.pos), |dev.sectors|, FileCount(bm))
    ensures errors == 0 ==> forall i :: 0 <= i < |files| ==> SavedFrom(files[i], dev.sectors, old(dev.pos), bm, l, i)
    ensures InRange(dev.sectors, old(dev.pos), bm, 8 * |bm|) <==> forall i :: 0 <= i < |files| ==> IsFileOf(files[i], dev.sectors, old(dev.pos), bm, l, i)
  {
    hide InRange, FileOf, IsFileOf, StreamBit, Header, ShapeOf, FileShape, Prefix, FirstString, Fits, Contains, Base, After, SavedFrom, Standing, Chunk, FileCount, Rank, Reaches, Padded;
    var nb := FileCount(bm);
    var firststring := FirstString(l.sectors, nb, l.info);
    var remaining := |bm|;
    files, bytes, errors := [], 0, 0;
    ghost var base, disk := dev.pos, dev.sectors;
    FirstBase(bm, base, |disk|);
    NoFiles(bm);
    for i := 0 to nb
      invariant dev.Valid() && dev.sectors == disk && |files| == i
      invariant firststring == if i == 0 then FirstString(l.sectors, nb, l.info) else []
      invariant if i == nb then remaining == 0 else remaining == |bm| - ALLOCLG * i
      invariant bytes == 4096 * (|bm| - remaining) && forall f :: 0 <= f < i ==> ShapeOf(files[f], bm, l, f)
      invariant errors == 0 <==> Reaches(disk, base, bm, i)
      invariant errors == 0 ==> dev.pos == Base(bm, base, |disk|, i)
      invariant errors == 0 ==> forall f :: 0 <= f < i ==> SavedFrom(files[f], disk, base, bm, l, f)
    {
      ChunkFits(bm, i);
      var lg := if remaining > ALLOCLG then ALLOCLG else remaining;
      ghost var pos := dev.pos;
      var part := bm[|bm| - remaining..|bm| - remaining + lg];
      ChunkIs(bm, i, remaining, lg);
      var c := new Saver(dev, bytes, stale);
      var prefix := firststring + l.notes[i];
      PrefixIs(l, nb, i, firststring);
      firststring := [];
      c.SaveFile(prefix, part);
      HasShape(c.stream, bm, l, i);
      NextFile(disk, base, bm, i, l, c.stream);
      files, bytes, remaining, errors := files + [c.stream], c.cbytes, remaining - lg, errors + c.errors;
    }
    if InRange(disk, base, bm, 8 * |bm|) {
      AllReached(disk, base, bm);
    }
    ImageOfWhole(files, disk, base, bm, l);
  }

  lemma {:induction false} ChunkIs(bm: seq<byte>, i: nat, remaining: nat, lg: nat)
    requires i < FileCount(bm) && remaining == |bm| - ALLOCLG * i && lg == if remaining > ALLOCLG then ALLOCLG else remaining
    ensures ALLOCLG * i <= |bm| && bm[|bm| - remaining..|bm| - remaining + lg] == Chunk(bm, i) && |Chunk(bm, i)| == lg
    ensures remaining - lg == if i + 1 == FileCount(bm) then 0 else |bm| - ALLOCLG * (i + 1)
  {
  }

  lemma {:induction false} NoFiles(bm: seq<byte>)
    ensures FileCount(bm) == 0 <==> bm == []
  {
  }

  lemma {:induction false} FirstBase(bm: seq<byte>, at: nat, size: nat)
    ensures Base(bm, at, size, 0) == at && forall disk :: Reaches(disk, at, bm, 0)
  {
  }

  /** One file further. */
  lemma {:induction false} NextFile(disk: seq<Sector>, at: nat, bm: seq<byte>, i: nat, l: Labels, file: seq<byte>)
    requires ALLOCLG * i <= |bm| && i < |l.notes|
    ensures var c, pos := Chunk(bm, i), Base(bm, at, |disk|, i);
            && Base(bm, at, |disk|, i + 1) == After(c, pos, |disk|)
            && (Reaches(disk, at, bm, i + 1) <==> Reaches(disk, at, bm, i) && InRange(disk, pos, c, 8 * |c|))
            && (InRange(disk, pos, c, 8 * |c|) && file == FileOf(disk, pos, c, Prefix(l, FileCount(bm), i)) ==> SavedFrom(file, disk, at, bm, l, i))
  {
    hide InRange, FileOf, Prefix;
    ReachOne(disk, at, bm, i);
  }

  lemma {:induction false} ReachOne(disk: seq<Sector>, at: nat, bm: seq<byte>, i: nat)
    ensures Reaches(disk, at, bm, i + 1) <==> Reaches(disk, at, bm, i) && Standing(disk, at, bm, i)
  {
    hide Standing;
  }

  lemma {:induction false} HasShape(file: seq<byte>, bm: seq<byte>, l: Labels, i: nat)
    requires i < |l.notes| && ALLOCLG * i <= |bm| && FileShape(file, Chunk(bm, i), Prefix(l, FileCount(bm), i))
    ensures ShapeOf(file, bm, l, i)
  {
  }

  lemma {:induction false} PrefixIs(l: Labels, nb: nat, i: nat, first: seq<byte>)
    requires i < |l.notes| && first == if i == 0 then FirstString(l.sectors, nb, l.info) else []
    ensures first + l.notes[i] == Prefix(l, nb, i)
  {
    hide Decimal;
    if i == 0 {
      var a, d := SECTORS + Decimal(l.sectors) + [BAR], Decimal(nb);
      Regroup(a, BLOCKS, d, [BAR] + l.info, l.notes[0]);
      Assoc([BAR], l.info, l.notes[0]);
    }
  }
}
