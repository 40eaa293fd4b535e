/**
  The ext2 block map: `ext2fs_block_map` with its two cached indirect blocks, and `ext2fs_read`.
 */
module Ext2Map {
  import opened Bits

  const NDIR: nat := 12
  const IND: nat := 12
  const DIND: nat := 13
  const TIND: nat := 14

  // ----- which entries lead to a block -----------------------------------------------------------

  /** The way from the inode to a block: an index at each level. */
  datatype Path = Direct(i: nat) | Single(i: nat) | Double(i: nat, j: nat) | Triple(i: nat, j: nat, k: nat)

  predicate InBounds(p: Path, a: nat) {
    match p
    case Direct(i) => i < NDIR
    case Single(i) => i < a
    case Double(i, j) => i < a && j < a
    case Triple(i, j, k) => i < a && j < a && k < a
  }

  /** How many blocks a file can have, with `a` entries to an indirect block. */
  function Capacity(a: nat): (r: nat) {
    NDIR + a + a * a + a * a * a
  }

  /** The shifts and masks of `ext2fs_block_map`. */
  function PathOf(a: nat, block: nat): (p: Path)
    requires a > 0
  {
    if block < NDIR then Direct(block)
    else if block - NDIR < a then Single(block - NDIR)
    else
      var b := block - NDIR - a;
      if b < a * a then Double(b / a, b % a)
      else
        var c := b - a * a;
        Triple(c / (a * a), (c / a) % a, c % a)
  }

  /** The block a path leads to, by counting those before it. */
  function Number(a: nat, p: Path): (n: nat) {
    match p
    case Direct(i) => i
    case Single(i) => NDIR + i
    case Double(i, j) => NDIR + a + i * a + j
    case Triple(i, j, k) => NDIR + a + a * a + (i * a + j) * a + k
  }

  lemma {:induction false} QuotientBound(c: nat, a: nat, m: nat)
    requires a > 0 && c < m * a
    ensures c / a < m
  {
    DivMod(c, a);
    if c / a >= m {
      MulOrder(m, c / a, a);
    }
  }

  lemma {:induction false} DivDiv(c: nat, a: nat)
    requires a > 0
    ensures c / (a * a) == (c / a) / a
  {
    var q, r, s := (c / a) / a, (c / a) % a, c % a;
    DivMod(c, a);
    DivMod(c / a, a);
    assert c == (q * a + r) * a + s;
    assert (q * a + r) * a == q * (a * a) + r * a;
    MulOrder(r + 1, a, a);
    assert (r + 1) * a == r * a + a;
    DivModUnique(c, a * a, q, r * a + s);
  }

  /** Every block within the capacity has its path, with all indices in bounds, and is the one it leads to. */
  lemma {:induction false} PathRoundTrip(a: nat, block: nat)
    requires a > 0 && block < Capacity(a)
    ensures InBounds(PathOf(a, block), a) && Number(a, PathOf(a, block)) == block
  {
    if block >= NDIR + a {
      var b := block - NDIR - a;
      if b < a * a {
        DivMod(b, a);
        QuotientBound(b, a, a);
      } else {
        var c := b - a * a;
        DivMod(c, a);
        DivMod(c / a, a);
        DivDiv(c, a);
        QuotientBound(c, a, a * a);
        QuotientBound(c / a, a, a);
      }
    }
  }

  lemma {:induction false} TwoDigits(m: nat, j: nat, a: nat, top: nat)
    requires a > 0 && m < top && j < a
    ensures m * a + j < top * a && (m * a + j) / a == m && (m * a + j) % a == j
  {
    DivModUnique(m * a + j, a, m, j);
    MulOrder(m, top, a);
  }

  /** No two paths lead to the same block, and none leads past the capacity. */
  lemma {:induction false} NumberRoundTrip(a: nat, p: Path)
    requires a > 0 && InBounds(p, a)
    ensures Number(a, p) < Capacity(a) && PathOf(a, Number(a, p)) == p
  {
    match p
    case Direct(i) =>
    case Single(i) =>
    case Double(i, j) => DoubleRoundTrip(a, i, j);
    case Triple(i, j, k) => TripleRoundTrip(a, i, j, k);
  }

  lemma {:induction false} DoubleRoundTrip(a: nat, i: nat, j: nat)
    requires a > 0 && i < a && j < a
    ensures var n := Number(a, Double(i, j)); n < Capacity(a) && PathOf(a, n) == Double(i, j)
  {
    hide PathOf;
    TwoDigits(i, j, a, a);
    PathDouble(a, i * a + j);
  }

  lemma {:induction false} TripleRoundTrip(a: nat, i: nat, j: nat, k: nat)
    requires a > 0 && i < a && j < a && k < a
    ensures var n := Number(a, Triple(i, j, k)); n < Capacity(a) && PathOf(a, n) == Triple(i, j, k)
  {
    hide PathOf;
    var c := (i * a + j) * a + k;
    ThreeDigits(a, i, j, k, i * a + j, c);
    PathTriple(a, c);
  }

  lemma {:induction false} PathDouble(a: nat, b: nat)
    requires a > 0 && b < a * a
    ensures PathOf(a, NDIR + a + b) == Double(b / a, b % a)
  {
  }

  lemma {:induction false} PathTriple(a: nat, c: nat)
    requires a > 0
    ensures PathOf(a, NDIR + a + a * a + c) == Triple(c / (a * a), (c / a) % a, c % a)
  {
  }

  lemma {:induction false} ThreeDigits(a: nat, i: nat, j: nat, k: nat, m: nat, c: nat)
    requires a > 0 && i < a && j < a && k < a && m == i * a + j && c == m * a + k
    ensures c < a * a * a && c / (a * a) == i && (c / a) % a == j && c % a == k
  {
    TwoDigits(i, j, a, a);
    TwoDigits(m, k, a, a * a);
    DivDiv(c, a);
  }

  // ----- blocks and entries -----------------------------------------------------------------------

  /** A 32-bit number as a C `int`. */
  function Signed(e: nat): (r: int) {
    if e < 0x8000_0000 then e else e - 0x1_0000_0000
  }

  /** Entry `i` of an indirect block: 32 bits, little endian. */
  function Entry(b: seq<byte>, i: nat): (e: nat)
    requires 4 * i + 4 <= |b|
  {
    var b0: nat, b1: nat, b2: nat, b3: nat := b[4 * i], b[4 * i + 1], b[4 * i + 2], b[4 * i + 3];
    b0 + 0x100 * b1 + 0x1_0000 * b2 + 0x100_0000 * b3
  }

  /** It is the number in the bits at its place, lowest first. */
  lemma {:induction false} EntryIs(b: seq<byte>, i: nat)
    requires 4 * i + 4 <= |b|
    ensures Entry(b, i) == Field(b, 32 * i, 32)
  {
    hide Field;
    LittleEndian(b, 4 * i);
    assert 8 * (4 * i) == 32 * i;
  }

  /** The signed number is the one of 32 bits that agrees with it. */
  lemma {:induction false} SignedIs(e: nat, x: int)
    requires e < 0x1_0000_0000 && -0x8000_0000 <= x < 0x8000_0000
    ensures Signed(e) == x <==> x % 0x1_0000_0000 == e
  {
  }

  /** The block number that a lookup gives; negative ones stand for no block. */
  datatype Found = Block(n: int) | NotFound

  ghost predicate Blocks(disk: seq<seq<byte>>, a: nat) {
    forall n :: 0 <= n < |disk| ==> |disk[n]| == 4 * a
  }

  /** Entry `i` of block `n` of the disk. */
  ghost function Look(disk: seq<seq<byte>>, a: nat, n: int, i: nat): (r: Found)
    requires Blocks(disk, a) && i < a
  {
    if 0 <= n < |disk| then Block(Signed(Entry(disk[n], i))) else NotFound
  }

  /** Where a path leads, read from the disk at every level. */
  ghost function Follow(disk: seq<seq<byte>>, a: nat, inode: seq<nat>, p: Path): (r: Found)
    requires Blocks(disk, a) && InBounds(p, a) && |inode| == 15
  {
    match p
    case Direct(i) => Block(Signed(inode[i]))
    case Single(i) => Look(disk, a, Signed(inode[IND]), i)
    case Double(i, j) => Then(disk, a, Look(disk, a, Signed(inode[DIND]), i), j)
    case Triple(i, j, k) => Then(disk, a, Then(disk, a, Look(disk, a, Signed(inode[TIND]), i), j), k)
  }

  ghost function Then(disk: seq<seq<byte>>, a: nat, f: Found, i: nat): (r: Found)
    requires Blocks(disk, a) && i < a
  {
    if f.Block? then Look(disk, a, f.n, i) else NotFound
  }

  // ----- the cached walk --------------------------------------------------------------------------

  class Volume {
    const disk: seq<seq<byte>>
    /** Entries per indirect block. */
    const a: nat
    var inode: seq<nat>
    var mapblock1: int
    var mapblock2: int
    var data1: seq<byte>
    var data2: seq<byte>
    /** Which of the coming disk reads succeed. */
    var script: seq<bool>

    ghost predicate Formatted()
      reads this`inode
    {
      a > 0 && Blocks(disk, a) && |inode| == 15
    }

    ghost predicate Mounted()
      reads this
    {
      Formatted() && |data1| == |data2| == 4 * a
    }

    /** A buffer marked as holding a block holds it. */
    ghost predicate Cached()
      reads this
    {
      && Mounted() && (mapblock1 == -1 || 1 <= mapblock1 <= 3)
      && (mapblock1 != -1 ==> Buffered(data1, Signed(inode[NDIR - 1 + mapblock1])))
      && (mapblock2 != -1 ==> Buffered(data2, mapblock2))
    }

    ghost predicate Buffered(data: seq<byte>, n: int) {
      0 <= n < |disk| && data == disk[n]
    }

    /** The entry on the way to this block is the number that also marks an empty cache. */
    ghost predicate Poisoned(block: nat)
      requires Formatted() && block < Capacity(a)
      reads this`inode
    {
      PathRoundTrip(a, block);
      var p := PathOf(a, block);
      p.Double? && Look(disk, a, Signed(inode[DIND]), p.i) == Block(-1)
    }

    ghost function Uncached(block: nat): (r: Found)
      requires Formatted() && block < Capacity(a)
      reads this`inode
    {
      PathRoundTrip(a, block);
      Follow(disk, a, inode, PathOf(a, block))
    }

    constructor (disk: seq<seq<byte>>, a: nat, inode: seq<nat>, script: seq<bool>)
      requires a > 0 && Blocks(disk, a) && |inode| == 15
      ensures Cached() && this.disk == disk && this.a == a && this.inode == inode && this.script == script
      ensures mapblock1 == mapblock2 == -1 && data2 == seq(4 * a, _ => 0)
    {
      this.disk, this.a, this.inode, this.script := disk, a, inode, script;
      mapblock1, mapblock2, data1, data2 := -1, -1, seq(4 * a, _ => 0), seq(4 * a, _ => 0);
    }

    /** `ext2_rdfsb`; a read that fails leaves anything in the buffer. */
    method ReadBlock(n: int, buffer: seq<byte>) returns (ok: bool, data: seq<byte>)
      requires Mounted() && |buffer| == 4 * a
      modifies this`script
      ensures |data| == 4 * a && (ok ==> Buffered(data, n))
      ensures old(script) == [] ==> script == [] && (ok <==> 0 <= n < |disk|)
    {
      ok := (script == [] || script[0]) && 0 <= n < |disk|;
      script := if script == [] then [] else script[1..];
      data := if ok then disk[n] else seq(4 * a, _ => 0);
    }

    /** A new inode: both caches are dropped. */
    method LoadInode(inode: seq<nat>)
      requires Mounted() && |inode| == 15
      modifies this`inode, this`mapblock1, this`mapblock2
      ensures Cached() && this.inode == inode
    {
      this.inode, mapblock1, mapblock2 := inode, -1, -1;
    }

    /** The first buffer holds the inode's indirect block of this level. */
    method Top(level: int) returns (ok: bool)
      requires Cached() && 1 <= level <= 3
      modifies this`mapblock1, this`data1, this`script
      ensures Mounted()
      ensures ok ==> Cached() && mapblock1 == level
      ensures old(script) == [] ==> script == [] && (ok <==> 0 <= Signed(inode[NDIR - 1 + level]) < |disk|)
    {
      ok := true;
      if mapblock1 != level {
        ok, data1 := ReadBlock(Signed(inode[NDIR - 1 + level]), data1);
      }
      if ok {
        mapblock1 := level;
      }
    }

    /** `ext2fs_block_map`: the same as the walk without caches, unless the entry on the way is -1. */
    method BlockMap(block: nat) returns (r: Found)
      requires Cached() && block < Capacity(a)
      modifies this`mapblock1, this`mapblock2, this`data1, this`data2, this`script
      ensures Mounted() && (r.Block? ==> Cached())
      ensures r.Block? && !Poisoned(block) ==> r == Uncached(block)
      ensures r.Block? && Poisoned(block) ==>
                old(mapblock2) == -1 && PathOf(a, block).j < a && r == Block(Signed(Entry(old(data2), PathOf(a, block).j)))
      ensures old(script) == [] ==> script == [] && (r.NotFound? ==> Uncached(block) == NotFound)
      ensures old(script) == [] && Poisoned(block) ==> (r.Block? <==> old(mapblock2) == -1)
    {
      PathRoundTrip(a, block);
      if block < NDIR {
        return Block(Signed(inode[block]));
      }
      var b := block - NDIR;
      if b < a {
        var ok := Top(1);
        if !ok {
          return NotFound;
        }
        return Block(Signed(Entry(data1, b)));
      }
      b := b - a;
      if b < a * a {
        r := MapDouble(b / a, b % a);
        return;
      }
      mapblock2 := -1;
      b := b - a * a;
      r := MapTriple(b / (a * a), (b / a) % a, b % a);
    }

    method MapDouble(i: nat, j: nat) returns (r: Found)
      requires Cached() && i < a && j < a
      modifies this`mapblock1, this`mapblock2, this`data1, this`data2, this`script
      ensures Mounted() && (r.Block? ==> Cached())
      ensures var top := Look(disk, a, Signed(inode[DIND]), i);
              r.Block? ==> if top == Block(-1) then old(mapblock2) == -1 && r == Block(Signed(Entry(old(data2), j)))
                           else r == Follow(disk, a, inode, Double(i, j))
      ensures old(script) == [] ==> script == [] && (r.NotFound? ==> Follow(disk, a, inode, Double(i, j)) == NotFound)
      ensures old(script) == [] && Look(disk, a, Signed(inode[DIND]), i) == Block(-1) ==> (r.Block? <==> old(mapblock2) == -1)
    {
      hide Entry, Signed;
      var ok := Top(2);
      if !ok {
        return NotFound;
      }
      var bnum := Signed(Entry(data1, i));
      if bnum != mapblock2 {
        ok, data2 := ReadBlock(bnum, data2);
        if !ok {
          return NotFound;
        }
      }
      mapblock2 := bnum;
      r := Block(Signed(Entry(data2, j)));
    }

    method MapTriple(i: nat, j: nat, k: nat) returns (r: Found)
      requires Cached() && i < a && j < a && k < a && mapblock2 == -1
      modifies this`mapblock1, this`data1, this`data2, this`script
      ensures Mounted() && (r.Block? ==> Cached() && r == Follow(disk, a, inode, Triple(i, j, k)))
      ensures old(script) == [] ==> script == [] && (r.NotFound? ==> Follow(disk, a, inode, Triple(i, j, k)) == NotFound)
    {
      hide Entry, Signed;
      var ok := Top(3);
      if !ok {
        return NotFound;
      }
      ok, data2 := ReadBlock(Signed(Entry(data1, i)), data2);
      if !ok {
        return NotFound;
      }
      ok, data2 := ReadBlock(Signed(Entry(data2, j)), data2);
      if !ok {
        return NotFound;
      }
      r := Block(Signed(Entry(data2, k)));
    }

    // ----- reading ---------------------------------------------------------------------------------

    /** A block of a directory, as `ext2fs_dir` reads it: into the second buffer, whose mark it drops. */
    method DirBlock(block: nat) returns (ok: bool)
      requires Cached() && block < Capacity(a)
      modifies this`mapblock1, this`mapblock2, this`data1, this`data2, this`script
      ensures Mounted() && (ok ==> Cached())
      ensures ok && !Poisoned(block) ==> Uncached(block).Block? && Buffered(data2, Uncached(block).n)
    {
      hide Follow, PathOf, Capacity;
      var map_ := BlockMap(block);
      mapblock2 := -1;
      if map_.NotFound? || map_.n < 0 {
        return false;
      }
      ok, data2 := ReadBlock(map_.n, data2);
    }

    /** Byte `pos` has a place on the disk. */
    ghost predicate HasPlace(pos: nat)
      requires Formatted()
      reads this`inode
    {
      UnitAt(4 * a, pos) < Capacity(a) && var f := Uncached(UnitAt(4 * a, pos)); f.Block? && 0 <= f.n < |disk|
    }

    /** What the disk holds there. */
    ghost function Stored(pos: nat): (x: byte)
      requires Formatted() && HasPlace(pos)
      reads this`inode
    {
      disk[Uncached(UnitAt(4 * a, pos)).n][OffsetAt(4 * a, pos)]
    }

    ghost predicate StoredIs(pos: nat, x: byte)
      requires Formatted()
      reads this`inode
    {
      HasPlace(pos) && Stored(pos) == x
    }

    /** Byte `pos` has a place that is not on the disk. */
    ghost predicate Unreadable(pos: nat)
      requires Formatted()
      reads this`inode
    {
      && UnitAt(4 * a, pos) < Capacity(a)
      && var f := Uncached(UnitAt(4 * a, pos)); f.NotFound? || f.n >= |disk|
    }

    /** There is no block for byte `pos`: a block number on the way to it, or its own, is zero. */
    ghost predicate InHole(pos: nat)
      requires Formatted() && UnitAt(4 * a, pos) < Capacity(a)
      reads this`inode
    {
      PathRoundTrip(a, UnitAt(4 * a, pos));
      MeetsZero(disk, a, inode, PathOf(a, UnitAt(4 * a, pos)))
    }

    /** Byte `pos` of the file is `x`; a hole reads as zeros. */
    ghost predicate ByteIs(pos: nat, x: byte)
      requires Formatted()
      reads this`inode
    {
      UnitAt(4 * a, pos) < Capacity(a) && if InHole(pos) then x == 0 else StoredIs(pos, x)
    }

    /** The disk holds the file's byte at its place: it is not in a hole, or the disk happens to hold zero there. */
    ghost predicate Honest(pos: nat)
      requires Formatted()
      reads this`inode
    {
      HasPlace(pos) && (!InHole(pos) || Stored(pos) == 0)
    }

    ghost predicate AllHonest(filepos: nat, n: nat)
      requires Formatted()
      reads this`inode
    {
      forall pos :: filepos <= pos < filepos + n ==> Honest(pos)
    }

    ghost predicate AllClean(filepos: nat, n: nat)
      requires Formatted()
      reads this`inode
    {
      forall pos :: filepos <= pos < filepos + n ==> UnitAt(4 * a, pos) < Capacity(a) && Clean(pos)
    }

    ghost predicate NoHoles(filepos: nat, n: nat)
      requires Formatted()
      reads this`inode
    {
      forall pos :: filepos <= pos < filepos + n ==> UnitAt(4 * a, pos) < Capacity(a) && !InHole(pos)
    }

    /** These are the bytes of the file from `filepos` on. */
    ghost predicate IsFile(filepos: nat, out: seq<byte>)
      requires Formatted()
      reads this`inode
    {
      forall i :: 0 <= i < |out| ==> ByteIs(filepos + i, out[i])
    }

    /** What was read is the file exactly if the disk holds the file's byte at every place, as it does outside of holes. */
    lemma ReadIsFile(filepos: nat, out: seq<byte>)
      requires Formatted() && AllClean(filepos, |out|) && forall i :: 0 <= i < |out| ==> Delivered(filepos, i, out)
      ensures IsFile(filepos, out) <==> AllHonest(filepos, |out|)
      ensures NoHoles(filepos, |out|) ==> IsFile(filepos, out)
    {
      hide Uncached, Capacity, Poisoned, UnitAt, OffsetAt, InHole, Clean;
      forall pos | filepos <= pos < filepos + |out|
        ensures ByteIs(pos, out[pos - filepos]) <==> Honest(pos)
        ensures HasPlace(pos)
      {
        assert Delivered(filepos, pos - filepos, out);
      }
      forall i | 0 <= i < |out|
        ensures ByteIs(filepos + i, out[i]) <==> Honest(filepos + i)
      {
        assert out[filepos + i - filepos] == out[i];
      }
      hide Honest, ByteIs;
      if IsFile(filepos, out) {
        forall pos | filepos <= pos < filepos + |out|
          ensures Honest(pos)
        {
          assert ByteIs(filepos + (pos - filepos), out[pos - filepos]);
        }
      }
    }

    /** Bytes that the block map leads to rightly. */
    ghost predicate Clean(pos: nat)
      requires Formatted() && UnitAt(4 * a, pos) < Capacity(a)
      reads this`inode
    {
      !Poisoned(UnitAt(4 * a, pos))
    }

    /** The bytes of one block from `pos` on. */
    method ReadPart(pos: nat, size: nat) returns (ok: bool, stop: bool, bytes: seq<byte>)
      requires Cached() && UnitAt(4 * a, pos) < Capacity(a) && OffsetAt(4 * a, pos) + size <= 4 * a
      modifies this`mapblock1, this`mapblock2, this`data1, this`data2, this`script
      ensures Mounted() && (ok ==> Cached()) && (ok && !stop ==> |bytes| == size)
      ensures ok && !stop && Clean(pos) ==> forall i :: 0 <= i < size ==> StoredIs(pos + i, bytes[i])
      ensures ok && stop && Clean(pos) ==> Uncached(UnitAt(4 * a, pos)).Block? && Uncached(UnitAt(4 * a, pos)).n < 0
      ensures old(script) == [] ==> script == [] && (!ok && Clean(pos) ==> Unreadable(pos))
    {
      hide Uncached, Capacity, Poisoned, UnitAt, OffsetAt;
      var off := OffsetAt(4 * a, pos);
      var r := BlockMap(UnitAt(4 * a, pos));
      if r.NotFound? {
        return false, true, [];
      }
      if r.n < 0 {
        return true, true, [];
      }
      var data;
      ok, data := ReadBlock(r.n, data2);
      if !ok {
        return false, true, [];
      }
      stop, bytes := false, data[off..off + size];
      if Clean(pos) {
        forall i | 0 <= i < size
          ensures StoredIs(pos + i, bytes[i])
        {
          SameUnit(4 * a, pos, i);
        }
      }
    }

    /**
      `ext2fs_read` at `filepos`.  Every byte it delivers is the one at its place, unless the block map
      leads astray; it stops early only at a block that is mapped to a negative number, and after an
      error it delivers nothing.  Where the block map does not lead astray, it delivers the file exactly if
      the disk holds zero at the place of every byte in a hole.
     */
    method Read(filepos: nat, len: nat) returns (ret: nat, out: seq<byte>, errnum: bool)
      requires Cached() && forall pos :: filepos <= pos < filepos + len ==> UnitAt(4 * a, pos) < Capacity(a)
      modifies this`mapblock1, this`mapblock2, this`data1, this`data2, this`script
      ensures Mounted() && ret <= len && (errnum ==> ret == 0) && (!errnum ==> Cached() && ret == |out|)
      ensures !errnum ==> forall i :: 0 <= i < ret ==> Delivered(filepos, i, out)
      ensures !errnum && AllClean(filepos, ret) ==> (IsFile(filepos, out) <==> AllHonest(filepos, ret))
      ensures !errnum && AllClean(filepos, ret) && NoHoles(filepos, ret) ==> IsFile(filepos, out)
      ensures !errnum && ret < len && Clean(filepos + ret) ==>
                var b := UnitAt(4 * a, filepos + ret);
                b < Capacity(a) && Uncached(b).Block? && Uncached(b).n < 0
      ensures errnum && old(script) == [] ==> exists pos :: filepos <= pos < filepos + len && (Unreadable(pos) || !Clean(pos))
    {
      hide Uncached, Capacity, Poisoned, UnitAt, OffsetAt, Clean, StoredIs, AllClean, AllHonest, NoHoles, IsFile;
      ret, out, errnum := ReadOn(filepos, len);
      if !errnum && AllClean(filepos, ret) {
        ReadIsFile(filepos, out);
      }
    }

    /** The loop of `ext2fs_read`. */
    method ReadOn(filepos: nat, len: nat) returns (ret: nat, out: seq<byte>, errnum: bool)
      requires Cached() && forall pos :: filepos <= pos < filepos + len ==> UnitAt(4 * a, pos) < Capacity(a)
      modifies this`mapblock1, this`mapblock2, this`data1, this`data2, this`script
      ensures Mounted() && ret <= len && (errnum ==> ret == 0) && (!errnum ==> Cached() && ret == |out|)
      ensures !errnum ==> forall i :: 0 <= i < ret ==> Delivered(filepos, i, out)
      ensures !errnum && ret < len && Clean(filepos + ret) ==>
                var b := UnitAt(4 * a, filepos + ret);
                b < Capacity(a) && Uncached(b).Block? && Uncached(b).n < 0
      ensures errnum && old(script) == [] ==> exists pos :: filepos <= pos < filepos + len && (Unreadable(pos) || !Clean(pos))
    {
      hide Uncached, Capacity, Poisoned, UnitAt, OffsetAt, Clean, StoredIs;
      ret, out, errnum := 0, [], false;
      var left: nat := len;
      while left > 0
        invariant Cached() && left == len - |out| && ret == |out| && !errnum && (old(script) == [] ==> script == [])
        invariant forall i :: 0 <= i < |out| ==> Delivered(filepos, i, out)
      {
        var pos := filepos + |out|;
        var size := 4 * a - OffsetAt(4 * a, pos);
        OffsetBound(4 * a, pos);
        size := if size > left then left else size;
        var ok, stop, bytes := ReadPart(pos, size);
        if !ok {
          return 0, out, true;
        }
        if stop {
          return;
        }
        DeliveredMore(filepos, out, bytes);
        out, left, ret := out + bytes, left - size, ret + size;
      }
    }

    /** Byte `i` of what was read is the one at its place, if the block map leads there. */
    ghost predicate Delivered(filepos: nat, i: nat, out: seq<byte>)
      requires Formatted() && i < |out|
      reads this`inode
    {
      UnitAt(4 * a, filepos + i) < Capacity(a) && (Clean(filepos + i) ==> StoredIs(filepos + i, out[i]))
    }

    lemma DeliveredMore(filepos: nat, out: seq<byte>, bytes: seq<byte>)
      requires Formatted() && forall i :: 0 <= i < |out| ==> Delivered(filepos, i, out)
      requires UnitAt(4 * a, filepos + |out|) < Capacity(a) && OffsetAt(4 * a, filepos + |out|) + |bytes| <= 4 * a
      requires Clean(filepos + |out|) ==> forall i :: 0 <= i < |bytes| ==> StoredIs(filepos + |out| + i, bytes[i])
      ensures forall i :: 0 <= i < |out + bytes| ==> Delivered(filepos, i, out + bytes)
    {
      hide Uncached, Capacity, Poisoned, UnitAt, OffsetAt, StoredIs;
      var all := out + bytes;
      forall i | 0 <= i < |all|
        ensures Delivered(filepos, i, all)
      {
        if i < |out| {
          assert Delivered(filepos, i, out);
        } else {
          var k := i - |out|;
          SameUnit(4 * a, filepos + |out|, k);
          assert filepos + i == filepos + |out| + k;
        }
      }
    }
  }

  /** A block number on the path is zero: ext2 has no block there, and means zeros. */
  ghost predicate MeetsZero(disk: seq<seq<byte>>, a: nat, inode: seq<nat>, p: Path)
    requires Blocks(disk, a) && InBounds(p, a) && |inode| == 15
  {
    var zero := Block(0);
    || Follow(disk, a, inode, p) == zero
    || match p
       case Direct(_) => false
       case Single(_) => inode[IND] == 0
       case Double(i, _) => inode[DIND] == 0 || Look(disk, a, Signed(inode[DIND]), i) == zero
       case Triple(i, j, _) =>
         || inode[TIND] == 0 || Look(disk, a, Signed(inode[TIND]), i) == zero
         || Then(disk, a, Look(disk, a, Signed(inode[TIND]), i), j) == zero
  }

  // ----- where the code does not deliver the file ---------------------------------------------------

  /** A block of 1024 bytes, each `x`. */
  function Filled(x: byte): (b: seq<byte>)
    ensures |b| == 1024 && forall i :: 0 <= i < 1024 ==> b[i] == x
  {
    seq(1024, _ => x)
  }

  lemma {:induction false} AllOnes()
    ensures Signed(Entry(Filled(255), 0)) == -1 && Signed(Entry(Filled(0), 0)) == 0
  {
  }

  /** An inode whose double indirect block is block 0, which is full of 0xFFFFFFFF: there is no block 268, but the first lookup finds one. */
  method PoisonExample() returns (r: Found)
    ensures r == Block(0)
    ensures var disk: seq<seq<byte>>, inode := [Filled(255)], Zeroes();
            Blocks(disk, 256) && Follow(disk, 256, inode, Double(0, 0)) == NotFound && PathOf(256, 268) == Double(0, 0)
  {
    hide Entry, Filled;
    var disk: seq<seq<byte>> := [Filled(255)];
    AllOnes();
    var v := new Volume(disk, 256, Zeroes(), []);
    assert v.data2 == Filled(0);
    r := v.BlockMap(268);
  }

  /** Block 12 is found in the first entry of the indirect block. */
  method EntryExample(rest: seq<byte>) returns (r: Found)
    requires |rest| == 1020
    ensures r == Block(2)
  {
    var inode := Zeroes()[IND := 1];
    var disk: seq<seq<byte>> := [Filled(0), [2, 0, 0, 0] + rest];
    var v := new Volume(disk, 256, inode, []);
    assert PathOf(256, 12) == Single(0) && Entry(disk[1], 0) == 2;
    r := v.BlockMap(12);
  }

  function Zeroes(): (s: seq<nat>)
    ensures |s| == 15 && forall i :: 0 <= i < 15 ==> s[i] == 0
  {
    seq(15, _ => 0)
  }

  /** A file without blocks: its first byte is zero, but what is read is the first byte of block 0. */
  method HoleExample() returns (ret: nat, out: seq<byte>)
    ensures ret == 1 && out == [7]
    ensures Blocks([Filled(7)], 256) && MeetsZero([Filled(7)], 256, Zeroes(), Direct(0)) && PathOf(256, 0) == Direct(0)
  {
    hide Filled;
    var v := new Volume([Filled(7)], 256, Zeroes(), []);
    assert UnitAt(1024, 0) == 0 && OffsetAt(1024, 0) == 0;
    assert v.Uncached(0) == Block(0) && v.Clean(0);
    var errnum;
    ret, out, errnum := v.Read(0, 1);
    assert ret == 1 ==> v.Delivered(0, 0, out);
  }
}
