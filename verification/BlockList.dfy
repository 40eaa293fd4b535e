/**
  Block lists: files given as extents of the disk, read by `grub_read` with a cursor that is moved
  forward or reset.
 */
module BlockList {
  import opened Bits
  import T = TrackCache

  const SECTOR: nat := 512

  datatype Extent = Extent(start: nat, length: nat)

  /** Sectors in the first `e` extents. */
  function Before(list: seq<Extent>, e: nat): (n: nat)
    requires e <= |list|
  {
    if e == 0 then 0 else Before(list, e - 1) + list[e - 1].length
  }

  lemma {:induction false} BeforeMonotone(list: seq<Extent>, d: nat, e: nat)
    requires d <= e <= |list|
    ensures Before(list, d) <= Before(list, e)
    decreases e
  {
    if d < e {
      BeforeMonotone(list, d, e - 1);
    }
  }

  /** Sector `n` of the file is sector `s` of the disk. */
  ghost predicate Denotes(list: seq<Extent>, n: nat, s: nat) {
    exists e :: 0 <= e < |list| && InExtent(list, e, n, s)
  }

  ghost predicate InExtent(list: seq<Extent>, e: nat, n: nat, s: nat)
    requires e < |list|
  {
    Before(list, e) <= n < Before(list, e) + list[e].length && s == list[e].start + (n - Before(list, e))
  }

  /** Extents laid end to end have one sector at every place. */
  lemma {:induction false} DenotesOnce(list: seq<Extent>, n: nat, s: nat, s': nat)
    requires Denotes(list, n, s) && Denotes(list, n, s')
    ensures s == s'
  {
    var e :| 0 <= e < |list| && InExtent(list, e, n, s);
    var e' :| 0 <= e' < |list| && InExtent(list, e', n, s');
    if e < e' {
      BeforeMonotone(list, e + 1, e');
    } else if e' < e {
      BeforeMonotone(list, e' + 1, e);
    }
  }

  lemma {:induction false} DenotesAll(list: seq<Extent>, n: nat, e: nat)
    requires e <= |list| && n < Before(list, e)
    ensures exists s :: Denotes(list, n, s)
    decreases e
  {
    if n < Before(list, e - 1) {
      DenotesAll(list, n, e - 1);
    } else {
      var s := list[e - 1].start + (n - Before(list, e - 1));
      assert InExtent(list, e - 1, n, s);
      assert Denotes(list, n, s);
    }
  }

  /** Every sector before the end is in an extent. */
  lemma {:induction false} DenotesSome(list: seq<Extent>, n: nat)
    requires n < Before(list, |list|)
    ensures exists s :: Denotes(list, n, s) && forall s' :: Denotes(list, n, s') ==> s' == s
  {
    DenotesAll(list, n, |list|);
    var s :| Denotes(list, n, s);
    forall s' | Denotes(list, n, s')
      ensures s' == s
    {
      DenotesOnce(list, n, s, s');
    }
  }

  class BlockFile {
    const dev: T.Cache
    const list: seq<Extent>
    const filemax: nat
    var filepos: int
    var curFilepos: nat
    /** The current extent and the sector in it. */
    var curList: nat
    var curNum: nat

    ghost predicate Listed() {
      && (forall e :: 0 <= e < |list| ==> list[e].length > 0)
      && filemax <= SECTOR * Before(list, |list|)
    }

    /** The cursor stands for sector `curFilepos / SECTOR` of the extents laid end to end. */
    ghost predicate Valid()
      reads this`curFilepos, this`curList, this`curNum
    {
      && Listed() && curList <= |list|
      && (if curList < |list| then curNum < list[curList].length else curNum == 0)
      && Before(list, curList) + curNum == curFilepos / SECTOR
    }

    /** The end of `grub_open`. */
    constructor (dev: T.Cache, list: seq<Extent>, filemax: nat)
      requires list != [] && (forall e :: 0 <= e < |list| ==> list[e].length > 0) && filemax <= SECTOR * Before(list, |list|)
      ensures Valid() && this.dev == dev && this.list == list && this.filemax == filemax && filepos == 0
    {
      this.dev, this.list, this.filemax := dev, list, filemax;
      filepos, curFilepos, curList, curNum := 0, 0, 0, 0;
    }

    /** Runs the cursor up to `pos`.  It may overshoot, but not into another sector. */
    method RunUp(pos: nat)
      requires Valid() && curFilepos <= pos < filemax
      modifies this`curFilepos, this`curList, this`curNum
      ensures Valid() && curFilepos / SECTOR == pos / SECTOR && curList < |list| && curNum < list[curList].length
    {
      while pos > curFilepos
        invariant Valid() && curFilepos / SECTOR <= pos / SECTOR
        decreases pos - curFilepos
      {
        if pos - (curFilepos - curFilepos % SECTOR) >= SECTOR {
          BelowEnd(list, curList, curNum, pos / SECTOR);
          curFilepos, curNum := curFilepos + SECTOR, curNum + 1;
          if curNum >= list[curList].length {
            curList, curNum := curList + 1, 0;
          }
        } else {
          curFilepos := pos;
        }
      }
      BelowEnd(list, curList, curNum, pos / SECTOR);
    }

    /** Brings the cursor to the sector of `pos`, from the start again if it is past it. */
    method Seek(pos: nat)
      requires Valid() && pos < filemax
      modifies this`curFilepos, this`curList, this`curNum
      ensures Valid() && curFilepos / SECTOR == pos / SECTOR && curList < |list| && curNum < list[curList].length
    {
      if pos < curFilepos {
        curFilepos, curList, curNum := 0, 0, 0;
      }
      RunUp(pos);
    }

    /** The disk of the partition, and where on it the partition begins. */
    ghost predicate OnDrive()
      reads dev`currentDrive, dev.bios`disks
    {
      dev.currentDrive in dev.bios.disks
    }

    /** Byte `pos` of the file is `x`. */
    ghost predicate ByteIs(pos: nat, x: byte)
      reads dev`currentDrive, dev`partStart, dev`partLength, dev.bios`disks
    {
      exists s :: Denotes(list, pos / SECTOR, s) && SectorByte(s, pos % SECTOR, x)
    }

    /** The bytes of the file from `pos` on. */
    ghost predicate Bytes(pos: nat, out: seq<byte>)
      reads dev`currentDrive, dev`partStart, dev`partLength, dev.bios`disks
    {
      forall i :: 0 <= i < |out| ==> ByteIs(pos + i, out[i])
    }

    /** Byte `off` of sector `s` of the partition is `x`. */
    ghost predicate SectorByte(s: nat, off: nat, x: byte)
      reads dev`currentDrive, dev`partStart, dev`partLength, dev.bios`disks
    {
      && OnDrive() && SECTOR * s + off < SECTOR * dev.partLength
      && var at, disk := SECTOR * (dev.partStart + s) + off, dev.bios.disks[dev.currentDrive];
         at < |disk| && disk[at] == x
    }

    /** All extents are in the partition, and all their sectors can be reached. */
    ghost predicate InReach()
      requires dev.bios.Valid()
      reads dev`currentDrive, dev`partStart, dev`partLength, dev.bios`disks, dev.bios`leftover
    {
      forall e :: 0 <= e < |list| ==>
        list[e].start + list[e].length <= dev.partLength && dev.CanReach(dev.currentDrive, dev.partStart + list[e].start, list[e].length)
    }

    /** The rest of the current extent, or all that is wanted. */
    method ReadExtent(pos: nat, len: nat) returns (ok: bool, bytes: seq<byte>, size: nat)
      requires Valid() && curFilepos / SECTOR == pos / SECTOR && curList < |list| && curNum < list[curList].length && len > 0
      requires dev.Valid() && dev.errnum == T.None
      modifies dev`bufDrive, dev`bufTrack, dev`geom, dev`buffer, dev`errnum, dev.bios`script
      ensures dev.Sound() && (ok <==> dev.errnum == T.None) && (ok ==> dev.Valid())
      ensures 0 < size <= len && (ok ==> |bytes| == size && Bytes(pos, bytes))
      ensures old(dev.bios.script) == [] && InReach() ==> ok && dev.bios.script == []
    {
      dev.ValidIsSound();
      hide Denotes, Before, ByteIs, Bytes, T.Reachable, T.WholeTrack, T.Cache.Valid, T.Cache.Sound, T.Bios.Valid, T.Cache.Is, T.Cache.Coming, T.Cache.Outset, T.Reading, T.SectorsFor, T.InGeometry, T.Cache.CanReach;
      var off := pos % SECTOR;
      size := (list[curList].length - curNum) * SECTOR - off;
      size := if size > len then len else size;
      var start := list[curList].start + curNum;
      if InReach() {
        PartReach(start, off, size);
      }
      ok, bytes := dev.DevRead(start, off, size);
      if ok {
        ExtentBytes(pos, start, off, bytes);
      }
    }

    lemma ExtentBytes(pos: nat, start: nat, off: nat, bytes: seq<byte>)
      requires Valid() && curFilepos / SECTOR == pos / SECTOR && curList < |list| && curNum < list[curList].length
      requires off == pos % SECTOR && start == list[curList].start + curNum && off + |bytes| <= (list[curList].length - curNum) * SECTOR
      requires OnDrive() && dev.InPartition(start, off, |bytes|)
      requires var from, disk := SECTOR * (dev.partStart + start) + off, dev.bios.disks[dev.currentDrive];
               from + |bytes| <= |disk| && bytes == disk[from..from + |bytes|]
      ensures Bytes(pos, bytes)
    {
      hide ByteIs, Denotes, Before;
      forall i | 0 <= i < |bytes|
        ensures ByteIs(pos + i, bytes[i])
      {
        ExtentByte(pos, start, off, i, bytes);
      }
    }

    /** A byte of what was read is a byte of the file. */
    lemma ExtentByte(pos: nat, start: nat, off: nat, i: nat, bytes: seq<byte>)
      requires Valid() && curFilepos / SECTOR == pos / SECTOR && curList < |list| && curNum < list[curList].length
      requires off == pos % SECTOR && start == list[curList].start + curNum && i < |bytes| && off + |bytes| <= (list[curList].length - curNum) * SECTOR
      requires OnDrive() && dev.InPartition(start, off, |bytes|)
      requires var from, disk := SECTOR * (dev.partStart + start) + off, dev.bios.disks[dev.currentDrive];
               from + |bytes| <= |disk| && bytes == disk[from..from + |bytes|]
      ensures ByteIs(pos + i, bytes[i])
    {
      hide Denotes, Before;
      Along(list, curList, curNum, pos, i);
      PartByte(start, off, i, (pos + i) % SECTOR, bytes);
    }

    /** What is read of an extent can be reached if the extent can. */
    lemma PartReach(start: nat, off: nat, size: nat)
      requires dev.bios.Valid() && InReach() && curList < |list| && curNum < list[curList].length
      requires start == list[curList].start + curNum && off < SECTOR && 0 < size && off + size <= (list[curList].length - curNum) * SECTOR
      ensures dev.InPartition(start, off, size)
      ensures dev.CanReach(dev.currentDrive, dev.partStart + start + off / SECTOR, T.SectorsFor(off % SECTOR, size))
    {
      var e := list[curList];
      assert dev.CanReach(dev.currentDrive, dev.partStart + e.start, e.length);
      assert off / SECTOR == 0 && off % SECTOR == off;
      var n := T.SectorsFor(off, size);
      assert n <= e.length - curNum;
      hide T.InGeometry;
    }

    /** A byte of what was read, as a byte of its sector. */
    lemma PartByte(start: nat, off: nat, i: nat, off': nat, bytes: seq<byte>)
      requires off < SECTOR && i < |bytes| && off' == (off + i) % SECTOR && OnDrive()
      requires var from, disk := SECTOR * (dev.partStart + start) + off, dev.bios.disks[dev.currentDrive];
               from + |bytes| <= |disk| && bytes == disk[from..from + |bytes|]
      requires SECTOR * start + off + |bytes| <= SECTOR * dev.partLength
      ensures SectorByte(start + (off + i) / SECTOR, off', bytes[i])
    {
      var m := off + i;
      assert m == SECTOR * (m / SECTOR) + m % SECTOR;
    }

    /**
      `grub_read` of a block list, over `devread` and its cache: any mix of seeks and reads delivers the
      bytes of the extents.
     */
    method Read(len: int) returns (ret: nat, out: seq<byte>)
      requires Valid() && dev.Valid()
      modifies this, dev`bufDrive, dev`bufTrack, dev`geom, dev`buffer, dev`errnum, dev.bios`script
      ensures Valid() && dev.Sound() && (dev.errnum == T.None ==> dev.Valid())
      ensures var pos := if old(filepos) < 0 || old(filepos) > filemax then filemax else old(filepos);
              var n := if len < 0 || len > filemax - pos then filemax - pos else len;
              dev.errnum == T.None ==> ret == n && |out| == n && filepos == pos + n && Bytes(pos, out)
      ensures dev.errnum != T.None ==> ret == 0
      ensures old(dev.errnum) == T.None && old(dev.bios.script) == [] && InReach() ==> dev.errnum == T.None
    {
      if filepos < 0 || filepos > filemax {
        filepos := filemax;
      }
      var left := if len < 0 || len > filemax - filepos then filemax - filepos else len;
      hide Valid, Bytes, InReach, T.Cache.Valid, T.Cache.Sound;
      ret, out := ReadOn(left);
      if dev.errnum != T.None {
        ret := 0;
      }
    }

    /** One turn of the loop of `grub_read`. */
    method Advance(left: nat) returns (ok: bool, bytes: seq<byte>, size: nat)
      requires Valid() && dev.Valid() && dev.errnum == T.None && 0 <= filepos && 0 < left && filepos + left <= filemax
      modifies this, dev`bufDrive, dev`bufTrack, dev`geom, dev`buffer, dev`errnum, dev.bios`script
      ensures Valid() && dev.Sound() && (ok <==> dev.errnum == T.None) && (ok ==> dev.Valid())
      ensures 0 < size <= left && filepos == old(filepos) + size && (ok ==> |bytes| == size && Bytes(old(filepos), bytes))
      ensures old(dev.bios.script) == [] && InReach() ==> ok && dev.bios.script == []
    {
      dev.ValidIsSound();
      hide Bytes, InReach, T.Cache.Valid, T.Cache.Sound, T.Bios.Valid, Before;
      Seek(filepos);
      ok, bytes, size := ReadExtent(filepos, left);
      filepos := filepos + size;
    }

    /** The loop of `grub_read`. */
    method ReadOn(n: nat) returns (ret: nat, out: seq<byte>)
      requires Valid() && dev.Valid() && 0 <= filepos && filepos + n <= filemax
      modifies this, dev`bufDrive, dev`bufTrack, dev`geom, dev`buffer, dev`errnum, dev.bios`script
      ensures Valid() && dev.Sound() && (dev.errnum == T.None ==> dev.Valid())
      ensures dev.errnum == T.None ==> ret == n && |out| == n && filepos == old(filepos) + n && Bytes(old(filepos), out)
      ensures old(dev.errnum) == T.None && old(dev.bios.script) == [] && InReach() ==> dev.errnum == T.None
    {
      dev.ValidIsSound();
      NoBytes(filepos);
      hide Valid, Bytes, InReach, T.Cache.Valid, T.Cache.Sound, T.Bios.Valid;
      ghost var pos: nat, good := filepos, dev.errnum == T.None && dev.bios.script == [] && InReach();
      var left: nat := n;
      ret, out := 0, [];
      while left > 0 && dev.errnum == T.None
        invariant Valid() && dev.Sound() && left <= n && ret == n - left && filepos == pos + ret
        invariant dev.errnum == T.None ==> dev.Valid() && |out| == ret && Bytes(pos, out)
        invariant good ==> dev.errnum == T.None && dev.bios.script == []
        decreases left
      {
        var ok, bytes, size := Advance(left);
        if ok {
          Longer(pos, out, bytes);
        }
        left, ret, out := left - size, ret + size, out + bytes;
      }
    }

    lemma NoBytes(pos: nat)
      ensures Bytes(pos, [])
    {
    }

    lemma Longer(pos: nat, out: seq<byte>, bytes: seq<byte>)
      requires Bytes(pos, out) && Bytes(pos + |out|, bytes)
      ensures Bytes(pos, out + bytes)
    {
      hide ByteIs;
      forall i | 0 <= i < |out + bytes|
        ensures ByteIs(pos + i, (out + bytes)[i])
      {
        if i >= |out| {
          assert ByteIs(pos + |out| + (i - |out|), bytes[i - |out|]);
        }
      }
    }
  }

  /** A place before the end is in an extent. */
  lemma {:induction false} BelowEnd(list: seq<Extent>, e: nat, k: nat, n: nat)
    requires e <= |list| && Before(list, e) + k <= n < Before(list, |list|)
    ensures e < |list|
  {
  }

  lemma {:induction false} Along(list: seq<Extent>, e: nat, k: nat, pos: nat, i: nat)
    requires e < |list| && Before(list, e) + k == pos / SECTOR && pos % SECTOR + i < (list[e].length - k) * SECTOR
    ensures Denotes(list, (pos + i) / SECTOR, list[e].start + k + (pos % SECTOR + i) / SECTOR)
    ensures (pos + i) % SECTOR == (pos % SECTOR + i) % SECTOR
  {
    var m := pos % SECTOR + i;
    assert pos + i == SECTOR * (pos / SECTOR) + m;
    assert (pos + i) / SECTOR == pos / SECTOR + m / SECTOR;
    assert InExtent(list, e, (pos + i) / SECTOR, list[e].start + k + m / SECTOR);
  }
}
