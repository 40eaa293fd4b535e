/**
  FAT: `fat_read`, which follows the cluster chain of a file through a cached window of the FAT and a
  remembered place in the chain.
 */
module FatChain {
  import opened Bits
  import T = TrackCache

  const SECTOR: nat := 512
  const CACHE: nat := 2048
  const MAXINT: nat := 0x7FFF_FFFF

  /** What `fat_mount` leaves in the superblock.  FAT entries are `fatSize` half-bytes long. */
  datatype Super = Super(fatOffset: nat, fatSize: nat, rootOffset: nat, rootMax: nat, dataOffset: nat, numClust: nat, clustSize: nat)

  ghost predicate Mounted(s: Super) {
    (s.fatSize == 3 || s.fatSize == 4 || s.fatSize == 8) && s.clustSize > 0 && s.clustSize % SECTOR == 0
  }

  function EofMarker(fatSize: nat): (r: nat) {
    if fatSize == 3 then 0xFF8 else if fatSize == 4 then 0xFFF8 else 0xFFF_FFF8
  }

  // ----- the FAT ------------------------------------------------------------------------------

  function Nibble(disk: seq<byte>, i: nat): (n: nat)
    requires i / 2 < |disk|
    ensures n < 16
  {
    if i % 2 == 0 then disk[i / 2] % 16 else disk[i / 2] / 16
  }

  /** The number in `n` half-bytes from half-byte `at` on, lowest first. */
  function Nibbles(disk: seq<byte>, at: nat, n: nat): (v: nat)
    requires at + n <= 2 * |disk|
    decreases n
  {
    if n == 0 then 0 else Nibble(disk, at) + 16 * Nibbles(disk, at + 1, n - 1)
  }

  /** Where the entry of a cluster is, in half-bytes of the disk. */
  function EntryAt(s: Super, cluster: nat): (r: nat) {
    2 * (SECTOR * s.fatOffset) + cluster * s.fatSize
  }

  datatype Link = At(cluster: nat) | End | Corrupt

  /** What `fat_read` makes of an entry, which it takes for a C `int`. */
  function Classify(s: Super, v: nat): (l: Link) {
    var next: int := if v < 0x8000_0000 then v else v - 0x1_0000_0000;
    if next >= EofMarker(s.fatSize) then End
    else if next < 2 || next >= s.numClust then Corrupt
    else At(next)
  }

  /** What the entry means: only 28 bits of a FAT32 entry count. */
  function Meaning(s: Super, v: nat): (l: Link) {
    var next := if s.fatSize == 8 then v % 0x1000_0000 else v;
    if next >= EofMarker(s.fatSize) then End
    else if next < 2 || next >= s.numClust then Corrupt
    else At(next)
  }

  /** The two agree unless a FAT32 entry has one of its top four bits set. */
  lemma {:induction false} ClassifyIsMeaning(s: Super, v: nat)
    requires Mounted(s) && v < 0x1_0000_0000 && (s.fatSize == 3 ==> v < 0x1000) && (s.fatSize == 4 ==> v < 0x1_0000)
    ensures s.fatSize != 8 || v < 0x1000_0000 ==> Classify(s, v) == Meaning(s, v)
    ensures s.fatSize == 8 && v >= 0x1000_0000 ==>
              (Classify(s, v) == Meaning(s, v) <==> Meaning(s, v) == if v < 0x8000_0000 then End else Corrupt)
  {
  }

  /** An entry with a top bit set: it points to cluster 2, but is taken for the end of the chain. */
  lemma {:induction false} TopBitExample(s: Super)
    requires s.fatSize == 8 && s.numClust > 2
    ensures Meaning(s, 0x1000_0002) == At(2) && Classify(s, 0x1000_0002) == End
  {
  }

  /** The link after `cluster`; outside the disk there is none. */
  ghost function Next(disk: seq<byte>, s: Super, cluster: nat): (l: Link) {
    if EntryAt(s, cluster) + s.fatSize <= 2 * |disk| then Classify(s, Nibbles(disk, EntryAt(s, cluster), s.fatSize)) else Corrupt
  }

  /** Link `n` of the chain from `start` on. */
  ghost function Chain(disk: seq<byte>, s: Super, start: nat, n: nat): (l: Link) {
    if n == 0 then At(start)
    else match Chain(disk, s, start, n - 1)
         case At(c) => Next(disk, s, c)
         case End => End
         case Corrupt => Corrupt
  }

  /** A chain that begins with a cluster of the file system goes on with such. */
  lemma {:induction false} ChainInRange(disk: seq<byte>, s: Super, start: nat, n: nat)
    ensures 2 <= start < s.numClust ==>
              var l := Chain(disk, s, start, n); l.At? ==> 2 <= l.cluster < s.numClust
  {
  }

  /** The same with every entry taken for what it means. */
  ghost function TrueNext(disk: seq<byte>, s: Super, cluster: nat): (l: Link) {
    if EntryAt(s, cluster) + s.fatSize <= 2 * |disk| then Meaning(s, Nibbles(disk, EntryAt(s, cluster), s.fatSize)) else Corrupt
  }

  ghost function TrueChain(disk: seq<byte>, s: Super, start: nat, n: nat): (l: Link) {
    if n == 0 then At(start)
    else match TrueChain(disk, s, start, n - 1)
         case At(c) => TrueNext(disk, s, c)
         case End => End
         case Corrupt => Corrupt
  }

  /** No entry of a FAT32 has one of its top four bits set. */
  ghost predicate TopBitsClear(disk: seq<byte>, s: Super) {
    forall c: nat :: c < s.numClust && EntryAt(s, c) + s.fatSize <= 2 * |disk| ==> EntryClear(disk, s, c)
  }

  ghost predicate EntryClear(disk: seq<byte>, s: Super, c: nat)
    requires EntryAt(s, c) + s.fatSize <= 2 * |disk|
  {
    s.fatSize == 8 ==> Nibbles(disk, EntryAt(s, c), s.fatSize) < 0x1000_0000
  }

  lemma {:induction false} NibblesBound(disk: seq<byte>, at: nat, n: nat)
    requires at + n <= 2 * |disk| && n <= 8
    ensures Nibbles(disk, at, n) < Pow2(4 * n)
    decreases n
  {
    if n > 0 {
      assert Pow2(4) == 16;
      hide Pow2;
      NibblesBound(disk, at + 1, n - 1);
      Pow2Add(4, 4 * (n - 1));
      assert 4 + 4 * (n - 1) == 4 * n;
    }
  }

  /** Half-bytes are numbered as the bits are: the lower half of a byte comes first. */
  lemma {:induction false} NibbleIs(disk: seq<byte>, i: nat)
    requires i < 2 * |disk|
    ensures Nibble(disk, i) == Field(disk, 4 * i, 4)
  {
    var p := i / 2;
    assert Pow2(4) == 16;
    Pow2Add(4, 4);
    ByteField(disk, p);
    ByteFrom(disk, p, 4);
    hide Field, Pow2;
    FieldConcat(disk, 8 * p, 4, 4);
    if i % 2 == 0 {
      assert 4 * i == 8 * p;
      DivModUnique(disk[p], 16, disk[p] / 16, Field(disk, 4 * i, 4));
    } else {
      assert 4 * i == 8 * p + 4;
    }
  }

  /** An entry is the number in its bits, lowest first. */
  lemma {:induction false} EntryIsBits(disk: seq<byte>, at: nat, n: nat)
    requires at + n <= 2 * |disk|
    ensures Nibbles(disk, at, n) == Field(disk, 4 * at, 4 * n)
    decreases n
  {
    assert Pow2(4) == 16;
    hide Nibble, Pow2;
    if n > 0 {
      hide Field;
      EntryIsBits(disk, at + 1, n - 1);
      NibbleIs(disk, at);
      FieldConcat(disk, 4 * at, 4, 4 * (n - 1));
      assert 4 + 4 * (n - 1) == 4 * n && 4 * at + 4 == 4 * (at + 1);
    }
  }

  /** Entries of 12, 16 and 28 bits; the last eight values end a chain. */
  lemma {:induction false} EofMarkerIs()
    ensures EofMarker(3) == Pow2(12) - 8 && EofMarker(4) == Pow2(16) - 8 && EofMarker(8) == Pow2(28) - 8
  {
    SmallPowers();
    Pow2Add(8, 8);
    Pow2Add(16, 12);
  }

  lemma {:induction false} EntryBound(disk: seq<byte>, s: Super, at: nat)
    requires Mounted(s) && at + s.fatSize <= 2 * |disk|
    ensures var v := Nibbles(disk, at, s.fatSize);
            v < 0x1_0000_0000 && (s.fatSize == 3 ==> v < 0x1000) && (s.fatSize == 4 ==> v < 0x1_0000)
  {
    NibblesBound(disk, at, s.fatSize);
    assert Pow2(4) == 16;
    Pow2Add(4, 4);
    Pow2Add(8, 4);
    Pow2Add(8, 8);
    Pow2Add(16, 16);
  }

  /** With the top bits clear, the chain that `fat_read` follows is the chain of the file. */
  lemma {:induction false} ChainIsTrue(disk: seq<byte>, s: Super, start: nat, n: nat)
    requires Mounted(s) && TopBitsClear(disk, s) && start < s.numClust
    ensures Chain(disk, s, start, n) == TrueChain(disk, s, start, n)
    ensures var l := Chain(disk, s, start, n); l.At? ==> l.cluster < s.numClust
  {
    hide Nibbles;
    if n > 0 {
      ChainIsTrue(disk, s, start, n - 1);
      var l := Chain(disk, s, start, n - 1);
      if l.At? && EntryAt(s, l.cluster) + s.fatSize <= 2 * |disk| {
        assert EntryClear(disk, s, l.cluster);
        EntryBound(disk, s, EntryAt(s, l.cluster));
        ClassifyIsMeaning(s, Nibbles(disk, EntryAt(s, l.cluster), s.fatSize));
      }
    }
  }

  lemma {:induction false} ChainEnds(disk: seq<byte>, s: Super, start: nat, n: nat, m: nat)
    requires n <= m && !Chain(disk, s, start, n).At?
    ensures Chain(disk, s, start, m) == Chain(disk, s, start, n)
    decreases m
  {
    if n < m {
      ChainEnds(disk, s, start, n, m - 1);
    }
  }

  // ----- half-byte addressing ----------------------------------------------------------------------

  /** The four bytes at `i` of the buffer as a number; memory behind the buffer is `beyond`. */
  function Word(buffer: seq<byte>, beyond: seq<byte>, i: nat): (w: nat)
    requires i + 4 <= |buffer + beyond|
  {
    var m := buffer + beyond;
    var b0: nat, b1: nat, b2: nat, b3: nat := m[i], m[i + 1], m[i + 2], m[i + 3];
    b0 + 0x100 * b1 + 0x1_0000 * b2 + 0x100_0000 * b3
  }

  /** What `fat_read` makes of that number. */
  function Extract(fatSize: nat, w: nat, odd: bool): (v: nat) {
    if fatSize == 3 then (if odd then w / 16 else w) % 0x1000
    else if fatSize == 4 then w % 0x1_0000
    else w
  }

  lemma {:induction false} ByteNibbles(b: seq<byte>, i: nat)
    requires i < |b|
    ensures Nibble(b, 2 * i) == b[i] % 16 && Nibble(b, 2 * i + 1) == b[i] / 16
    ensures b[i] == Nibble(b, 2 * i) + 16 * Nibble(b, 2 * i + 1)
  {
  }

  lemma {:induction false} Unfold2(b: seq<byte>, at: nat, n: nat)
    requires n >= 2 && at + n <= 2 * |b|
    ensures Nibbles(b, at, n) == Nibble(b, at) + 16 * Nibble(b, at + 1) + 256 * Nibbles(b, at + 2, n - 2)
  {
  }

  lemma {:induction false} Extract12(buffer: seq<byte>, beyond: seq<byte>, pos: nat)
    requires pos + 3 <= 2 * |buffer| && |beyond| >= 4
    ensures Extract(3, Word(buffer, beyond, pos / 2), pos % 2 == 1) == Nibbles(buffer, pos, 3)
  {
    var i := pos / 2;
    var b0: nat, b1: nat := buffer[i], buffer[i + 1];
    var m := buffer + beyond;
    var b2: nat, b3: nat := m[i + 2], m[i + 3];
    assert m[i] == b0 && m[i + 1] == b1;
    Unfold2(buffer, pos, 3);
    ByteNibbles(buffer, i);
    ByteNibbles(buffer, i + 1);
    assert Nibbles(buffer, pos + 2, 1) == Nibble(buffer, pos + 2);
    if pos % 2 == 0 {
      assert pos == 2 * i;
      LowTwelve(b0, b1, b2, b3);
    } else {
      assert pos == 2 * i + 1;
      HighTwelve(b0, b1, b2, b3);
    }
  }

  lemma {:induction false} LowTwelve(b0: nat, b1: nat, b2: nat, b3: nat)
    requires b0 < 256 && b1 < 256
    ensures (b0 + 0x100 * b1 + 0x1_0000 * b2 + 0x100_0000 * b3) % 0x1000 == b0 + 256 * (b1 % 16)
  {
    DivModUnique(b0 + 0x100 * b1 + 0x1_0000 * b2 + 0x100_0000 * b3, 0x1000, b1 / 16 + 16 * b2 + 0x1000 * b3, b0 + 256 * (b1 % 16));
  }

  lemma {:induction false} HighTwelve(b0: nat, b1: nat, b2: nat, b3: nat)
    requires b0 < 256 && b1 < 256
    ensures ((b0 + 0x100 * b1 + 0x1_0000 * b2 + 0x100_0000 * b3) / 16) % 0x1000 == b0 / 16 + 16 * b1
  {
    var w := b0 + 0x100 * b1 + 0x1_0000 * b2 + 0x100_0000 * b3;
    DivModUnique(w, 16, b0 / 16 + 16 * b1 + 0x1000 * b2 + 0x10_0000 * b3, b0 % 16);
    DivModUnique(w / 16, 0x1000, b2 + 0x100 * b3, b0 / 16 + 16 * b1);
  }

  /** Two half-bytes on a byte boundary are that byte. */
  lemma {:induction false} NextByte(b: seq<byte>, i: nat, n: nat)
    requires n >= 2 && 2 * i + n <= 2 * |b|
    ensures 2 * (i + 1) + (n - 2) <= 2 * |b|
    ensures Nibbles(b, 2 * i, n) == b[i] as nat + 256 * Nibbles(b, 2 * (i + 1), n - 2)
  {
    Unfold2(b, 2 * i, n);
    ByteNibbles(b, i);
    hide Nibbles, Nibble;
    assert 2 * i + 2 == 2 * (i + 1);
  }

  lemma {:induction false} NoNibbles(b: seq<byte>, at: nat)
    requires at <= 2 * |b|
    ensures Nibbles(b, at, 0) == 0
  {
  }

  lemma {:induction false} Extract16(buffer: seq<byte>, beyond: seq<byte>, i: nat)
    requires 2 * i + 4 <= 2 * |buffer| && |beyond| >= 4
    ensures Extract(4, Word(buffer, beyond, i), false) == Nibbles(buffer, 2 * i, 4)
  {
    NextByte(buffer, i, 4);
    NextByte(buffer, i + 1, 2);
    NoNibbles(buffer, 2 * (i + 2));
    hide Nibbles;
    var m := buffer + beyond;
    assert m[i] == buffer[i] && m[i + 1] == buffer[i + 1];
    var b0: nat, b1: nat, b2: nat, b3: nat := m[i], m[i + 1], m[i + 2], m[i + 3];
    DivModUnique(b0 + 0x100 * b1 + 0x1_0000 * b2 + 0x100_0000 * b3, 0x1_0000, b2 + 0x100 * b3, b0 + 0x100 * b1);
  }

  lemma {:induction false} Extract32(buffer: seq<byte>, beyond: seq<byte>, i: nat)
    requires 2 * i + 8 <= 2 * |buffer|
    ensures Extract(8, Word(buffer, beyond, i), false) == Nibbles(buffer, 2 * i, 8)
  {
    hide Nibbles;
    NextByte(buffer, i, 8);
    NextByte(buffer, i + 1, 6);
    NextByte(buffer, i + 2, 4);
    NextByte(buffer, i + 3, 2);
    NoNibbles(buffer, 2 * (i + 3 + 1));
    WordIs(buffer, beyond, i);
  }

  lemma {:induction false} WordIs(buffer: seq<byte>, beyond: seq<byte>, i: nat)
    requires i + 4 <= |buffer|
    ensures Word(buffer, beyond, i) ==
            buffer[i] as nat + 256 * (buffer[i + 1] as nat + 256 * (buffer[i + 2] as nat + 256 * (buffer[i + 3] as nat)))
  {
    var m := buffer + beyond;
    assert m[i] == buffer[i] && m[i + 1] == buffer[i + 1] && m[i + 2] == buffer[i + 2] && m[i + 3] == buffer[i + 3];
  }

  /** Reading a 32-bit word and masking gives the entry, wherever it lies; bytes past the buffer do not matter. */
  lemma {:induction false} ExtractIs(fatSize: nat, buffer: seq<byte>, beyond: seq<byte>, pos: nat)
    requires (fatSize == 3 || fatSize == 4 || fatSize == 8) && pos + fatSize <= 2 * |buffer| && |beyond| >= 4
    requires fatSize != 3 ==> pos % 2 == 0
    ensures Extract(fatSize, Word(buffer, beyond, pos / 2), pos % 2 == 1) == Nibbles(buffer, pos, fatSize)
  {
    hide Extract, Word, Nibbles;
    if fatSize == 3 {
      Extract12(buffer, beyond, pos);
    } else {
      assert pos == 2 * (pos / 2);
      if fatSize == 4 {
        Extract16(buffer, beyond, pos / 2);
      } else {
        Extract32(buffer, beyond, pos / 2);
      }
    }
  }

  /** The same half-bytes, seen through a window that begins at byte `from`. */
  lemma {:induction false} NibblesWindow(disk: seq<byte>, from: nat, buffer: seq<byte>, at: nat, n: nat)
    requires from + |buffer| <= |disk| && buffer == disk[from..from + |buffer|] && at + n <= 2 * |buffer|
    ensures Nibbles(buffer, at, n) == Nibbles(disk, 2 * from + at, n)
    decreases n
  {
    if n > 0 {
      NibblesWindow(disk, from, buffer, at + 1, n - 1);
      assert (2 * from + at) / 2 == from + at / 2 && (2 * from + at) % 2 == at % 2;
      assert buffer[at / 2] == disk[from + at / 2];
    }
  }

  // ----- reading a file ------------------------------------------------------------------------------

  datatype Stop = Reached | ChainEnd | FsysCorrupt | ReadError

  /** Where a cluster is on the disk. */
  function DataAt(s: Super, cluster: nat): (r: int) {
    SECTOR * s.dataOffset + (cluster - 2) * s.clustSize
  }

  /** The clusters fill the data area, one behind the other: the first is number 2, and no two overlap. */
  lemma {:induction false} ClustersTile(s: Super, c: nat, d: nat)
    requires Mounted(s)
    ensures DataAt(s, 2) == 512 * s.dataOffset && DataAt(s, c + 1) == DataAt(s, c) + s.clustSize
    ensures c < d ==> DataAt(s, c) + s.clustSize <= DataAt(s, d)
    decreases d
  {
    MulDistributes(c - 2, 1, s.clustSize);
    if c < d {
      MulOrder(c - 2, d - 2, s.clustSize);
    }
  }

  /** The entries fill the FAT in the same way, and begin with that of cluster 0. */
  lemma {:induction false} EntriesTile(s: Super, c: nat)
    ensures EntryAt(s, 0) == 1024 * s.fatOffset && EntryAt(s, c + 1) == EntryAt(s, c) + s.fatSize
  {
  }

  class Fat {
    const dev: T.Cache
    const s: Super
    /** Memory behind the FAT buffer. */
    const beyond: seq<byte>
    /** In half-bytes from the start of the FAT. */
    var cachedFat: int
    var buffer: seq<byte>
    var fileCluster: nat
    var currentClusterNum: nat
    var currentCluster: nat

    ghost predicate Sane() {
      Mounted(s) && |beyond| >= 4
    }

    /** The partition. */
    ghost function Disk(): (disk: seq<byte>)
      reads dev`currentDrive, dev`partStart, dev`partLength, dev.bios`disks
    {
      if dev.currentDrive in dev.bios.disks then Part(dev.bios.disks[dev.currentDrive], dev.partStart, dev.partLength) else []
    }

    /** The window, unless it is out of reach, is a slice of the FAT. */
    ghost predicate Window()
      reads this`cachedFat, this`buffer, dev`currentDrive, dev`partStart, dev`partLength, dev.bios`disks
    {
      && |buffer| == CACHE
      && (cachedFat == -(2 * CACHE) ||
          (cachedFat >= 0 && cachedFat % (2 * SECTOR) == 0
           && var from := SECTOR * s.fatOffset + cachedFat / 2;
              from + CACHE <= |Disk()| && buffer == Disk()[from..from + CACHE]))
    }

    /** The remembered place is on the chain of the file. */
    ghost predicate OnChain()
      reads this`fileCluster, this`currentClusterNum, this`currentCluster, dev`currentDrive, dev`partStart, dev`partLength, dev.bios`disks
    {
      currentClusterNum == MAXINT || Chain(Disk(), s, fileCluster, currentClusterNum) == At(currentCluster)
    }

    ghost predicate Valid()
      reads this, dev`currentDrive, dev`partStart, dev`partLength, dev.bios`disks
    {
      Sane() && Window() && OnChain()
    }

    /** The disk can be read, unless there was an error. */
    ghost predicate DevOK()
      reads dev`errnum, dev`bufDrive, dev`bufTrack, dev`geom, dev`buffer, dev.bios`disks, dev.bios`leftover
    {
      dev.Sound() && (dev.errnum == T.None ==> dev.Valid())
    }

    /** `fat_mount`. */
    constructor (dev: T.Cache, s: Super, beyond: seq<byte>)
      requires Mounted(s) && |beyond| >= 4
      ensures Valid() && this.dev == dev && this.s == s
    {
      this.dev, this.s, this.beyond := dev, s, beyond;
      cachedFat, buffer := -(2 * CACHE), seq(CACHE, _ => 0);
      fileCluster, currentClusterNum, currentCluster := 0, MAXINT, 0;
    }

    /** Opening a file: the place in the chain is forgotten. */
    method Open(cluster: nat)
      requires Valid()
      modifies this`fileCluster, this`currentClusterNum
      ensures Valid() && fileCluster == cluster
    {
      fileCluster, currentClusterNum := cluster, MAXINT;
    }

    /** Nothing stands in the way of reading these bytes. */
    ghost predicate Reach(sector: int, off: nat, n: nat)
      requires dev.bios.Valid()
      reads dev`currentDrive, dev`partStart, dev`partLength, dev.bios`disks, dev.bios`leftover
    {
      && dev.InPartition(sector, off, n) && sector >= 0
      && dev.CanReach(dev.currentDrive, dev.partStart + sector + off / SECTOR, T.SectorsFor(off % SECTOR, n))
    }

    /** `devread`, of some bytes at least; a read that fails leaves anything in the buffer. */
    method DevRead(sector: int, off: nat, n: nat) returns (ok: bool, data: seq<byte>)
      requires DevOK() && n > 0
      modifies dev`bufDrive, dev`bufTrack, dev`geom, dev`buffer, dev`errnum, dev.bios`script
      ensures DevOK() && |data| == n && (ok <==> dev.errnum == T.None) && (old(dev.errnum) != T.None ==> !ok)
      ensures ok ==> var at := SECTOR * sector + off; 0 <= at && at + n <= |Disk()| && data == Disk()[at..at + n]
      ensures old(dev.errnum) == T.None && old(dev.bios.script) == [] && Reach(sector, off, n) ==> ok && dev.bios.script == []
    {
      hide T.Cache.Valid, T.Cache.Sound, T.Reachable, T.Cache.Is, T.Cache.Coming, T.Cache.Outset, T.Reading;
      dev.SoundBios();
      ok, data := dev.DevRead(sector, off, n);
      if ok {
        PartSlice(dev.bios.disks[dev.currentDrive], dev.partStart, dev.partLength, SECTOR * sector + off, n, SECTOR * (dev.partStart + sector) + off);
      } else {
        data := seq(n, _ => 0);
      }
    }

    /** Moves the window so that it begins in the sector of this entry. */
    method MoveWindow(fatEntry: nat) returns (ok: bool)
      requires Sane() && DevOK()
      modifies this`cachedFat, this`buffer, dev`bufDrive, dev`bufTrack, dev`geom, dev`buffer, dev`errnum, dev.bios`script
      ensures DevOK() && |buffer| == CACHE && (ok <==> dev.errnum == T.None) && (old(dev.errnum) != T.None ==> !ok)
      ensures ok ==> Window() && 0 <= fatEntry - cachedFat < 2 * SECTOR && cachedFat >= 0
      ensures old(dev.errnum) == T.None && old(dev.bios.script) == [] && Reach(s.fatOffset + fatEntry / (2 * SECTOR), 0, CACHE) ==> ok && dev.bios.script == []
    {
      hide DevOK, Reach, Disk;
      cachedFat := fatEntry - fatEntry % (2 * SECTOR);
      var sector := s.fatOffset + cachedFat / (2 * SECTOR);
      Aligned(fatEntry, s.fatOffset, cachedFat, sector);
      ok, buffer := DevRead(sector, 0, CACHE);
    }

    /** The FAT entry of a cluster, through the window. */
    method ReadEntry(cluster: nat) returns (ok: bool, v: nat)
      requires Sane() && Window() && DevOK()
      modifies this`cachedFat, this`buffer, dev`bufDrive, dev`bufTrack, dev`geom, dev`buffer, dev`errnum, dev.bios`script
      ensures DevOK() && |buffer| == CACHE && (old(dev.errnum) != T.None ==> dev.errnum != T.None)
      ensures if ok then dev.errnum == old(dev.errnum) else dev.errnum != T.None
      ensures ok ==> Window() && EntryAt(s, cluster) + s.fatSize <= 2 * |Disk()| && v == Nibbles(Disk(), EntryAt(s, cluster), s.fatSize)
      ensures old(dev.errnum) == T.None && old(dev.bios.script) == [] && Reach(s.fatOffset + (cluster * s.fatSize) / (2 * SECTOR), 0, CACHE) ==> ok && dev.bios.script == []
    {
      hide Nibbles, Extract, Word, DevOK, Disk, Reach;
      var fatEntry := cluster * s.fatSize;
      var cachedPos := fatEntry - cachedFat;
      if cachedPos < 0 || cachedPos + s.fatSize > 2 * CACHE {
        ok := MoveWindow(fatEntry);
        if !ok {
          return false, 0;
        }
        cachedPos := fatEntry - cachedFat;
      }
      ok := true;
      v := Extract(s.fatSize, Word(buffer, beyond, cachedPos / 2), cachedPos % 2 == 1);
      InWindow(cluster, fatEntry, cachedPos);
    }

    /** An entry that lies in the window is read rightly from it. */
    lemma InWindow(cluster: nat, fatEntry: nat, cachedPos: nat)
      requires Sane() && Window() && fatEntry == cluster * s.fatSize && cachedFat >= 0
      requires cachedPos == fatEntry - cachedFat && cachedPos + s.fatSize <= 2 * CACHE
      ensures EntryAt(s, cluster) + s.fatSize <= 2 * |Disk()| && cachedPos / 2 + 4 <= |buffer + beyond|
      ensures Extract(s.fatSize, Word(buffer, beyond, cachedPos / 2), cachedPos % 2 == 1) == Nibbles(Disk(), EntryAt(s, cluster), s.fatSize)
    {
      hide Nibbles, Extract, Word, Disk;
      EvenEntry(cluster, s.fatSize, fatEntry);
      EvenPos(fatEntry, cachedFat);
      ExtractIs(s.fatSize, buffer, beyond, cachedPos);
      NibblesWindow(Disk(), SECTOR * s.fatOffset + cachedFat / 2, buffer, cachedPos, s.fatSize);
      assert EntryAt(s, cluster) == 2 * (SECTOR * s.fatOffset + cachedFat / 2) + cachedPos;
    }

    /**
      `fat_read` in the root directory of FAT12 and FAT16, which is not a chain.  A position behind its
      end gives a negative count, if the end of the directory is in the partition.
     */
    method ReadRoot(filepos: nat, len: nat) returns (ret: int, out: seq<byte>)
      requires DevOK()
      modifies dev`bufDrive, dev`bufTrack, dev`geom, dev`buffer, dev`errnum, dev.bios`script
      ensures DevOK() && ret <= len
      ensures ret > 0 ==> dev.errnum == T.None && ret == |out| && ret == (if len < s.rootMax - filepos then len else s.rootMax - filepos) &&
                          var at := SECTOR * s.rootOffset + filepos; at + ret <= |Disk()| && out == Disk()[at..at + ret]
      ensures filepos < s.rootMax && len > 0 && dev.errnum == T.None ==> ret > 0
      ensures filepos > s.rootMax ==> if dev.errnum == old(dev.errnum) then ret == s.rootMax - filepos || (ret == 0 && dev.errnum == T.Outside) else ret == 0 && dev.errnum == T.Outside
      ensures old(dev.errnum) == T.None && old(dev.bios.script) == [] && filepos < s.rootMax && len > 0 && Reach(s.rootOffset, 0, s.rootMax) ==> ret > 0
    {
      hide DevOK, Reach, Disk;
      DevBios();
      out := [];
      ret := s.rootMax - filepos;
      if ret > len {
        ret := len;
      }
      var ok;
      if ret > 0 {
        if Reach(s.rootOffset, 0, s.rootMax) {
          ReachPart(s.rootOffset, s.rootMax, filepos, ret);
        }
        ok, out := DevRead(s.rootOffset, filepos, ret);
      } else {
        ok, out := ReadNothing(s.rootOffset, filepos, ret);
      }
      if !ok {
        ret := 0;
      }
    }

    /** `devread` of no bytes, or of a negative number: only the end is looked at. */
    method ReadNothing(sector: nat, off: nat, n: int) returns (ok: bool, data: seq<byte>)
      requires DevOK() && n <= 0
      modifies dev`bufDrive, dev`bufTrack, dev`geom, dev`buffer, dev`errnum, dev.bios`script
      ensures DevOK() && data == [] && (if ok then dev.errnum == old(dev.errnum) else dev.errnum == T.Outside)
    {
      hide T.Cache.Valid, T.Cache.Sound;
      ok, data := dev.DevRead(sector, off, n);
      data := [];
    }

    /** A part of what can be reached can be reached. */
    lemma ReachPart(sector: nat, size: nat, off: nat, n: nat)
      requires dev.bios.Valid() && Reach(sector, 0, size) && 0 < n && off + n <= size
      ensures Reach(sector, off, n)
    {
      hide T.InGeometry;
      var a, b := T.SectorsFor(0, size), T.SectorsFor(off % SECTOR, n);
      assert off == SECTOR * (off / SECTOR) + off % SECTOR;
      assert off / SECTOR + b <= a;
    }

    /** The FAT, with room for a window at its end, and all clusters can be reached. */
    ghost predicate Whole()
      requires dev.bios.Valid()
      reads dev`currentDrive, dev`partStart, dev`partLength, dev.bios`disks, dev.bios`leftover
    {
      && (forall c: nat :: c < s.numClust ==> EntryInReach(c))
      && (forall c: nat :: 2 <= c < s.numClust ==> Reach(ClusterSector(s, c), 0, s.clustSize))
    }

    ghost predicate EntryInReach(c: nat)
      requires dev.bios.Valid()
      reads dev`currentDrive, dev`partStart, dev`partLength, dev.bios`disks, dev.bios`leftover
    {
      Reach(s.fatOffset + (c * s.fatSize) / (2 * SECTOR), 0, CACHE)
    }

    /** Nothing stands in the way of reading the file. */
    ghost predicate Easy()
      requires dev.bios.Valid()
      reads this`fileCluster, dev`errnum, dev`currentDrive, dev`partStart, dev`partLength, dev.bios`disks, dev.bios`leftover, dev.bios`script
    {
      dev.errnum == T.None && dev.bios.script == [] && Whole() && 2 <= fileCluster < s.numClust
    }

    /** The inner loop of `fat_read`: follows the chain up to link `target`. */
    method Follow(target: nat) returns (r: Stop)
      requires Valid() && DevOK() && currentClusterNum <= target < MAXINT
      modifies this`cachedFat, this`buffer, this`currentClusterNum, this`currentCluster, dev`bufDrive, dev`bufTrack, dev`geom, dev`buffer, dev`errnum, dev.bios`script
      ensures DevOK() && (r != ReadError ==> Valid() && dev.errnum == old(dev.errnum)) && (r == ReadError ==> dev.errnum != T.None)
      ensures r == Reached ==> currentClusterNum == target && Chain(Disk(), s, fileCluster, target) == At(currentCluster)
      ensures r == ChainEnd ==> Chain(Disk(), s, fileCluster, target) == End
      ensures r == FsysCorrupt ==> Chain(Disk(), s, fileCluster, target) == Corrupt
      ensures old(Easy()) ==> r != ReadError && Easy()
    {
      hide Nibbles, Window, Mounted, Next, DevOK, Disk, Reach;
      DevBios();
      while target > currentClusterNum
        invariant Valid() && DevOK() && currentClusterNum <= target && dev.errnum == old(dev.errnum) && dev.bios.Valid()
        invariant old(Easy()) ==> Easy()
        decreases target - currentClusterNum
      {
        ChainInRange(Disk(), s, fileCluster, currentClusterNum);
        assert Easy() ==> EntryInReach(currentCluster);
        var ok, v := ReadEntry(currentCluster);
        DevBios();
        if !ok {
          return ReadError;
        }
        NextIs(Disk(), s, currentCluster, v);
        ghost var n := currentClusterNum + 1;
        var l := Classify(s, v);
        if l == End || l == Corrupt {
          ChainEnds(Disk(), s, fileCluster, n, target);
          return if l == End then ChainEnd else FsysCorrupt;
        }
        currentCluster, currentClusterNum := l.cluster, currentClusterNum + 1;
      }
      r := Reached;
    }

    lemma DevBios()
      requires DevOK()
      ensures dev.bios.Valid()
    {
    }

    /** Byte `pos` of the open file is `x`. */
    ghost predicate ByteIs(pos: nat, x: byte)
      requires Sane()
      reads this`fileCluster, dev`currentDrive, dev`partStart, dev`partLength, dev.bios`disks
    {
      var l := Chain(Disk(), s, fileCluster, UnitAt(s.clustSize, pos));
      l.At? && var at := DataAt(s, l.cluster) + OffsetAt(s.clustSize, pos); 0 <= at < |Disk()| && Disk()[at] == x
    }

    ghost predicate Bytes(pos: nat, out: seq<byte>)
      requires Sane()
      reads this`fileCluster, dev`currentDrive, dev`partStart, dev`partLength, dev.bios`disks
    {
      forall i :: 0 <= i < |out| ==> ByteIs(pos + i, out[i])
    }

    /** The chain of the file ends before this byte. */
    ghost predicate EndsBefore(pos: nat)
      requires Sane()
      reads this`fileCluster, dev`currentDrive, dev`partStart, dev`partLength, dev.bios`disks
    {
      Chain(Disk(), s, fileCluster, UnitAt(s.clustSize, pos)) == End
    }

    /** The bytes of one cluster, which the chain has come to.  A read that fails is not noticed here. */
    method ReadCluster(ghost pos: nat, offset: nat, size: nat) returns (bytes: seq<byte>)
      requires Valid() && DevOK() && Chain(Disk(), s, fileCluster, UnitAt(s.clustSize, pos)) == At(currentCluster)
      requires offset == OffsetAt(s.clustSize, pos) && 0 < size <= s.clustSize - offset
      modifies dev`bufDrive, dev`bufTrack, dev`geom, dev`buffer, dev`errnum, dev.bios`script
      ensures DevOK() && |bytes| == size && (old(dev.errnum) != T.None ==> dev.errnum != T.None)
      ensures dev.errnum == T.None ==> Bytes(pos, bytes)
      ensures old(Easy()) ==> Easy()
    {
      hide Window, Chain, UnitAt, OffsetAt, DevOK, Disk, Reach;
      DevBios();
      if 2 <= fileCluster < s.numClust {
        ChainInRange(Disk(), s, fileCluster, UnitAt(s.clustSize, pos));
      }
      if Easy() {
        assert Reach(ClusterSector(s, currentCluster), 0, s.clustSize);
        ReachPart(ClusterSector(s, currentCluster), s.clustSize, offset, size);
      }
      ClusterSectorIs(s, currentCluster);
      var ok;
      ok, bytes := DevRead(ClusterSector(s, currentCluster), offset, size);
      DevBios();
      if ok {
        forall i | 0 <= i < size
          ensures ByteIs(pos + i, bytes[i])
        {
          SameUnit(s.clustSize, pos, i);
        }
      }
    }

    lemma Longer(pos: nat, out: seq<byte>, bytes: seq<byte>)
      requires Sane() && Bytes(pos, out) && Bytes(pos + |out|, bytes)
      ensures Bytes(pos, out + bytes)
    {
      hide ByteIs;
      var all := out + bytes;
      forall i | 0 <= i < |all|
        ensures ByteIs(pos + i, all[i])
      {
        if i >= |out| {
          assert ByteIs(pos + |out| + (i - |out|), bytes[i - |out|]);
          assert pos + |out| + (i - |out|) == pos + i;
        } else {
          assert ByteIs(pos + i, out[i]);
        }
      }
    }

    /**
      `fat_read`, over `devread` and its cache.  Without an error it delivers the bytes of the concatenated
      clusters from `filepos` on, and fewer than asked for only where the chain ends, whatever is cached and
      wherever the last read stopped.  A read of data that fails does not stop it: with an error the count is
      zero, unless the chain ends behind that many bytes.
     */
    method Read(filepos: nat, len: nat) returns (ret: nat, out: seq<byte>, ghost stop: Stop)
      requires Valid() && DevOK() && UnitAt(s.clustSize, filepos + len) < MAXINT
      modifies this`cachedFat, this`buffer, this`currentClusterNum, this`currentCluster, dev`bufDrive, dev`bufTrack, dev`geom, dev`buffer, dev`errnum, dev.bios`script
      ensures DevOK() && ret <= len && (dev.errnum == T.None ==> Valid())
      ensures dev.errnum == T.None ==> ret == |out| && Bytes(filepos, out) && (ret < len ==> EndsBefore(filepos + ret))
      ensures dev.errnum != T.None ==> ret == 0 || (ret < len && EndsBefore(filepos + ret))
      ensures stop == FsysCorrupt ==> dev.errnum == T.Corrupt && exists n :: Chain(Disk(), s, fileCluster, n) == Corrupt
      ensures old(Easy()) ==> dev.errnum == T.None || stop == FsysCorrupt
    {
      hide Window, Chain, UnitAt, OffsetAt, DataAt, DevOK, Disk, Reach, ByteIs, Bytes, Easy;
      out := [];
      var logicalClust := UnitAt(s.clustSize, filepos);
      var offset := OffsetAt(s.clustSize, filepos);
      UnitOrder(s.clustSize, filepos, filepos + len);
      if logicalClust < currentClusterNum {
        currentClusterNum, currentCluster := 0, fileCluster;
        ChainStart(Disk(), s, fileCluster);
      }
      NoBytes(filepos);
      DevBios();
      EasyIs();
      var left: nat := len;
      while left > 0
        invariant Valid() && DevOK() && left == len - |out| && currentClusterNum <= logicalClust
        invariant dev.bios.Valid() && (old(Easy()) ==> Easy() && dev.errnum == T.None)
        invariant left > 0 ==> logicalClust == UnitAt(s.clustSize, filepos + |out|) && offset == OffsetAt(s.clustSize, filepos + |out|)
        invariant dev.errnum == T.None ==> Bytes(filepos, out)
      {
        ghost var pos := filepos + |out|;
        UnitOrder(s.clustSize, pos, filepos + len);
        var r := Follow(logicalClust);
        DevBios();
        EasyIs();
        if r == ReadError {
          return 0, out, r;
        } else if r == FsysCorrupt {
          SetCorrupt();
          assert Chain(Disk(), s, fileCluster, logicalClust) == Corrupt;
          return 0, out, r;
        } else if r == ChainEnd {
          return |out|, out, r;
        }
        OffsetBound(s.clustSize, pos);
        var size := s.clustSize - offset;
        size := if size > left then left else size;
        var bytes := ReadCluster(pos, offset, size);
        DevBios();
        EasyIs();
        if size == s.clustSize - offset {
          NextUnit(s.clustSize, pos, size);
        }
        if dev.errnum == T.None {
          Longer(filepos, out, bytes);
        }
        out, left := out + bytes, left - size;
        logicalClust, offset := logicalClust + 1, 0;
      }
      ret, stop := if dev.errnum != T.None then 0 else |out|, Reached;
    }

    method SetCorrupt()
      requires DevOK()
      modifies dev`errnum
      ensures DevOK() && dev.errnum == T.Corrupt
    {
      dev.errnum := T.Corrupt;
    }

    lemma EasyIs()
      requires DevOK() && dev.bios.Valid()
      ensures Easy() ==> dev.errnum == T.None
    {
    }

    lemma NoBytes(pos: nat)
      requires Sane()
      ensures Bytes(pos, [])
    {
    }

  }

  /** The sectors of a partition that the disk has. */
  function Part(disk: seq<byte>, start: nat, length: nat): (part: seq<byte>) {
    disk[Least(SECTOR * start, |disk|)..Least(SECTOR * (start + length), |disk|)]
  }

  lemma {:induction false} PartSlice(disk: seq<byte>, start: nat, length: nat, at: nat, n: nat, from: nat)
    requires from == SECTOR * start + at && at + n <= SECTOR * length && from + n <= |disk|
    ensures at + n <= |Part(disk, start, length)| && Part(disk, start, length)[at..at + n] == disk[from..from + n]
  {
    var a, end := SECTOR * start, Least(SECTOR * (start + length), |disk|);
    assert a <= |disk| && from + n <= end;
    assert Part(disk, start, length) == disk[a..end];
    SliceOfSlice(disk, a, end, at, at + n);
    assert a + at == from && a + (at + n) == from + n;
  }

  lemma {:induction false} SliceOfSlice(s: seq<byte>, a: nat, b: nat, i: nat, j: nat)
    requires a <= b <= |s| && i <= j <= b - a
    ensures s[a..b][i..j] == s[a + i..a + j]
  {
    var x, y := s[a..b][i..j], s[a + i..a + j];
    assert forall k :: 0 <= k < j - i ==> x[k] == s[a..b][i + k];
    assert x == y;
  }

  /** The sector a cluster begins in, from the start of the partition. */
  function ClusterSector(s: Super, cluster: nat): (r: int) {
    s.dataOffset + (cluster - 2) * (s.clustSize / SECTOR)
  }

  lemma {:induction false} ClusterSectorIs(s: Super, cluster: nat)
    requires Mounted(s)
    ensures SECTOR * ClusterSector(s, cluster) == DataAt(s, cluster)
  {
    var q := s.clustSize / SECTOR;
    assert s.clustSize == SECTOR * q;
    assert SECTOR * ((cluster - 2) * q) == (cluster - 2) * (SECTOR * q);
  }

  lemma {:induction false} NextIs(disk: seq<byte>, s: Super, cluster: nat, v: nat)
    requires EntryAt(s, cluster) + s.fatSize <= 2 * |disk| && v == Nibbles(disk, EntryAt(s, cluster), s.fatSize)
    ensures Next(disk, s, cluster) == Classify(s, v)
  {
  }

  lemma {:induction false} ChainStart(disk: seq<byte>, s: Super, start: nat)
    ensures Chain(disk, s, start, 0) == At(start)
  {
  }

  lemma {:induction false} EvenPos(fatEntry: nat, cachedFat: int)
    requires cachedFat % (2 * SECTOR) == 0
    ensures (fatEntry - cachedFat) % 2 == fatEntry % 2 && 2 * (cachedFat / 2) == cachedFat
  {
    var q := cachedFat / (2 * SECTOR);
    Halves(fatEntry, cachedFat, SECTOR * q);
  }

  lemma {:induction false} Halves(e: int, c: int, h: int)
    requires c == 2 * h
    ensures (e - c) % 2 == e % 2 && c / 2 == h && c % 2 == 0
  {
  }

  lemma {:induction false} Aligned(e: nat, fatOffset: nat, c: int, sector: int)
    requires c == e - e % (2 * SECTOR) && sector == fatOffset + c / (2 * SECTOR)
    ensures c >= 0 && c % (2 * SECTOR) == 0 && 0 <= e - c < 2 * SECTOR
    ensures SECTOR * sector == SECTOR * fatOffset + c / 2 && sector == fatOffset + e / (2 * SECTOR)
  {
    var q := e / (2 * SECTOR);
    assert e == 2 * SECTOR * q + e % (2 * SECTOR);
  }

  lemma {:induction false} EvenEntry(cluster: nat, fatSize: nat, e: nat)
    requires e == cluster * fatSize
    ensures fatSize == 4 || fatSize == 8 ==> e % 2 == 0
  {
    if fatSize == 4 {
      Halves(0, e, 2 * cluster);
    } else if fatSize == 8 {
      Halves(0, e, 4 * cluster);
    }
  }
}
