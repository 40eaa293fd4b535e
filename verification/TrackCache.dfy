/**
  The lowest layers of the boot loader's read stack: `biosdisk` (bios.c), `rawread` with its
  one-track cache, and `devread` (disk_io.c).
 */
module TrackCache {
  import opened Bits

  const SECTOR: nat := 512
  /** The size of the track buffer: 63 sectors. */
  const BUFFERLEN: nat := 32256

  datatype Geometry = Geometry(lba: bool, cylinders: nat, heads: nat, sectors: nat)

  predicate Sane(g: Geometry) {
    1 <= g.heads && 1 <= g.sectors <= 63
  }

  /** The same cylinders, heads and sectors. */
  predicate Agree(g: Geometry, g': Geometry) {
    g.(lba := false) == g'.(lba := false)
  }

  /** `Trap` is not an error number: it stands for a division by zero. */
  datatype Error = None | Outside | NoDisk | Geom | Read | WriteFailed | Corrupt | Trap

  /** `n` sectors of a disk from `sector` on. */
  function Slice(disk: seq<byte>, sector: nat, n: nat): (s: seq<byte>)
    requires SECTOR * (sector + n) <= |disk|
    ensures |s| == SECTOR * n
  {
    disk[SECTOR * sector..SECTOR * (sector + n)]
  }

  predicate Fits(disk: seq<byte>, sector: nat) {
    SECTOR * (sector + 1) <= |disk|
  }

  /** The disk with one sector replaced. */
  function Replaced(disk: seq<byte>, sector: nat, data: seq<byte>): (r: seq<byte>)
    requires Fits(disk, sector) && |data| == SECTOR
    ensures |r| == |disk| && Slice(r, sector, 1) == data
    ensures forall i :: 0 <= i < |disk| && i / SECTOR != sector ==> r[i] == disk[i]
  {
    disk[..SECTOR * sector] + data + disk[SECTOR * (sector + 1)..]
  }

  // ----- addresses --------------------------------------------------------------------------

  /** Which sector a cylinder, head and sector number name; sectors are counted from one. */
  function Linear(g: Geometry, c: nat, h: nat, s: nat): (r: int) {
    (c * g.heads + h) * g.sectors + s - 1
  }

  /** Sectors follow each other within a track, from head to head and from cylinder to cylinder. */
  lemma {:induction false} NextAddress(g: Geometry, c: nat, h: nat, s: nat)
    requires Sane(g)
    ensures Linear(g, 0, 0, 1) == 0 && Linear(g, c, h, s + 1) == Linear(g, c, h, s) + 1
    ensures Linear(g, c, h + 1, 1) == Linear(g, c, h, g.sectors) + 1
    ensures Linear(g, c + 1, 0, 1) == Linear(g, c, g.heads - 1, g.sectors) + 1
  {
    MulDistributes(c * g.heads + h, 1, g.sectors);
    MulDistributes(c, 1, g.heads);
    MulDistributes(c * g.heads + (g.heads - 1), 1, g.sectors);
  }

  lemma {:induction false} MultipleMod(k: nat, n: nat)
    requires n > 0
    ensures (k * n) % n == 0
  {
    DivModUnique(k * n, n, k, 0);
  }

  /** The place of a sector in its track. */
  function Soff(sector: nat, n: nat): (r: nat)
    requires n > 0
    ensures r < n && r <= sector
  {
    DivMod(sector, n);
    MulAtMost(sector / n, n);
    sector % n
  }

  lemma {:induction false} MulAtMost(a: nat, n: nat)
    ensures a * n >= 0
  {
  }

  /** The next track begins where this one ends. */
  lemma {:induction false} NextTrack(sector: nat, n: nat, next: nat)
    requires n > 0 && next == sector - Soff(sector, n) + n
    ensures Soff(next, n) == 0 && Soff(sector - Soff(sector, n), n) == 0
  {
    DivMod(sector, n);
    MultipleMod(sector / n, n);
    MultipleMod(sector / n + 1, n);
    MulDistributes(sector / n, 1, n);
  }

  datatype Address = Address(c: nat, h: nat, s: nat)

  /** The address that the fallback computes. */
  function AddressOf(g: Geometry, sector: nat): (a: Address)
    requires Sane(g)
  {
    DivMod(sector, g.sectors);
    DivMod(sector / g.sectors, g.heads);
    var head := sector / g.sectors;
    Address(head / g.heads, head % g.heads, sector % g.sectors + 1)
  }

  /** It names the same sector. */
  lemma {:induction false} AddressRoundTrip(g: Geometry, sector: nat)
    requires Sane(g)
    ensures var a := AddressOf(g, sector);
            a.h < g.heads && a.s == sector % g.sectors + 1 && Linear(g, a.c, a.h, a.s) == sector
  {
    DivMod(sector, g.sectors);
    DivMod(sector / g.sectors, g.heads);
  }

  // ----- the BIOS --------------------------------------------------------------------------------

  predicate InTrack(g: Geometry, h: nat, s: nat, n: nat) {
    h < g.heads && 1 <= s && s + n <= g.sectors + 1
  }

  /** Whether the next call succeeds, and which do after it: all, when nothing more is said. */
  predicate Lucky(script: seq<bool>) {
    script == [] || script[0]
  }

  function Rest(script: seq<bool>): (rest: seq<bool>) {
    if script == [] then [] else script[1..]
  }

  /** The machine's disks.  Any call may fail; `script` decides which do. */
  class Bios {
    const geometries: map<nat, Geometry>
    var disks: map<nat, seq<byte>>
    var script: seq<bool>
    /** What the registers hold when the geometry of a hard disk cannot be had. */
    var leftover: Geometry

    ghost predicate Valid()
      reads this`disks, this`leftover
    {
      && disks.Keys == geometries.Keys && (forall d :: d in geometries ==> Sane(geometries[d]))
      && 1 <= leftover.heads && leftover.sectors <= 63
    }

    constructor (geometries: map<nat, Geometry>, disks: map<nat, seq<byte>>, script: seq<bool>, leftover: Geometry)
      requires disks.Keys == geometries.Keys && (forall d :: d in geometries ==> Sane(geometries[d]))
      requires 1 <= leftover.heads && leftover.sectors <= 63
      ensures Valid() && this.geometries == geometries && this.disks == disks && this.script == script && this.leftover == leftover
    {
      this.geometries, this.disks, this.script, this.leftover := geometries, disks, script, leftover;
    }

    method Luck() returns (ok: bool)
      modifies this`script
      ensures ok == Lucky(old(script)) && script == Rest(old(script))
    {
      ok := script == [] || script[0];
      script := if script == [] then [] else script[1..];
    }

    /** What is stored when the geometry of a drive cannot be had: for a floppy, the end of the probe values. */
    function Leftover(drive: nat): (g: Geometry)
      reads this`leftover
    {
      if drive % 256 < 128 then Geometry(false, 80, 2, 0) else leftover
    }

    /** `get_diskinfo`.  Cylinders, heads and sectors are stored even if it fails. */
    method DiskInfo(drive: nat) returns (ok: bool, g: Geometry)
      requires Valid()
      modifies this`script
      ensures Valid() && (ok ==> drive in disks) && g == if ok then geometries[drive] else Leftover(drive)
      ensures script == Rest(old(script)) && (ok <==> Lucky(old(script)) && drive in disks)
    {
      ok := Luck();
      ok := ok && drive in geometries;
      g := if ok then geometries[drive] else Leftover(drive);
    }

    /** Int 13h extensions: a read by sector number. */
    method ReadLinear(drive: nat, sector: nat, n: nat) returns (ok: bool, data: seq<byte>)
      requires Valid() && drive in disks
      modifies this`script
      ensures ok ==> SECTOR * (sector + n) <= |disks[drive]| && data == Slice(disks[drive], sector, n) && |data| == SECTOR * n
      ensures script == Rest(old(script)) && (ok <==> Lucky(old(script)) && SECTOR * (sector + n) <= |disks[drive]|)
    {
      ok := Luck();
      ok, data := ok && SECTOR * (sector + n) <= |disks[drive]|, [];
      if ok {
        data := Slice(disks[drive], sector, n);
      }
    }

    /** The classic read by cylinder, head and sector.  Only within one track is it sure what it does. */
    method ReadStandard(drive: nat, c: nat, h: nat, s: nat, n: nat) returns (ok: bool, data: seq<byte>)
      requires Valid() && drive in disks
      modifies this`script
      ensures ok ==> |data| == SECTOR * n
      ensures InTrack(geometries[drive], h, s, n) ==>
                var at := Linear(geometries[drive], c, h, s);
                && (ok ==> 0 <= at && SECTOR * (at + n) <= |disks[drive]| && data == Slice(disks[drive], at, n))
                && script == Rest(old(script)) && (ok <==> Lucky(old(script)) && SECTOR * (at + n) <= |disks[drive]|)
      ensures old(script) == [] ==> script == []
    {
      var g := geometries[drive];
      ok, data := false, [];
      if InTrack(g, h, s, n) {
        var at := Linear(g, c, h, s);
        LinearPositive(g, c, h, s);
        ok, data := ReadLinear(drive, at, n);
      }
    }

    /** A write of one sector. */
    method WriteSector(drive: nat, sector: nat, data: seq<byte>) returns (ok: bool)
      requires Valid() && drive in disks && |data| == SECTOR
      modifies this
      ensures Valid() && drive in old(disks)
      ensures if ok then Fits(old(disks)[drive], sector) && disks == old(disks)[drive := Replaced(old(disks)[drive], sector, data)] else disks == old(disks)
    {
      ok := Luck();
      var disk := disks[drive];
      ok := ok && SECTOR * (sector + 1) <= |disk|;
      if ok {
        disks := disks[drive := Replaced(disk, sector, data)];
      }
    }
  }

  lemma {:induction false} LinearPositive(g: Geometry, c: nat, h: nat, s: nat)
    requires s >= 1
    ensures Linear(g, c, h, s) >= 0
  {
  }

  lemma {:induction false} SameAddress(g: Geometry, g': Geometry, sector: nat)
    requires Sane(g) && Agree(g, g')
    ensures AddressOf(g, sector) == AddressOf(g', sector)
  {
  }

  /** The sector has a cylinder. */
  predicate InGeometry(g: Geometry, sector: nat)
    requires Sane(g)
  {
    AddressOf(g, sector).c < g.cylinders
  }

  lemma {:induction false} SameTrack(g: Geometry, sector: nat)
    requires Sane(g)
    ensures InGeometry(g, sector - Soff(sector, g.sectors)) <==> InGeometry(g, sector)
  {
    var n, q := g.sectors, sector / g.sectors;
    DivMod(sector, n);
    DivModUnique(q * n, n, q, 0);
  }

  datatype Outcome = Fine | GeometryError | OtherError

  /** What a read within one track comes to: the outcome, and the geometry and the script that are left. */
  datatype Tried = Tried(r: Outcome, g: Geometry, script: seq<bool>)

  /** By cylinder, head and sector, if there is such a cylinder. */
  ghost function TryStandard(g: Geometry, disk: seq<byte>, sector: nat, n: nat, script: seq<bool>): (t: Tried)
    requires Sane(g)
    ensures Agree(t.g, g)
  {
    if InGeometry(g, sector) then Tried(if Lucky(script) && SECTOR * (sector + n) <= |disk| then Fine else OtherError, g, Rest(script))
    else Tried(GeometryError, g, script)
  }

  /** By sector number, where the drive has that; if this fails, it is switched off, and the other way is tried. */
  ghost function Try(g: Geometry, disk: seq<byte>, sector: nat, n: nat, script: seq<bool>): (t: Tried)
    requires Sane(g)
    ensures Agree(t.g, g)
  {
    if !g.lba then TryStandard(g, disk, sector, n, script)
    else if Lucky(script) && SECTOR * (sector + n) <= |disk| then Tried(Fine, g, Rest(script))
    else TryStandard(g.(lba := false), disk, sector, n, Rest(script))
  }

  /**
    `biosdisk` for reading.  If the extensions fail they are switched off for this geometry and the
    read is tried again by cylinder, head and sector.
   */
  method BiosDisk(bios: Bios, drive: nat, g: Geometry, sector: nat, n: nat) returns (r: Outcome, g': Geometry, data: seq<byte>)
    requires bios.Valid() && drive in bios.disks && Sane(g)
    modifies bios`script
    ensures Agree(g', g) && (r == Fine ==> |data| == SECTOR * n)
    ensures old(bios.script) == [] ==> bios.script == []
    ensures Agree(g, bios.geometries[drive]) && Soff(sector, g.sectors) + n <= g.sectors ==>
              && (r == Fine ==> SECTOR * (sector + n) <= |bios.disks[drive]| && data == Slice(bios.disks[drive], sector, n))
              && Tried(r, g', bios.script) == Try(g, bios.disks[drive], sector, n, old(bios.script))
    decreases g.lba
  {
    hide Linear, AddressOf, Slice;
    g' := g;
    var ok;
    if g.lba {
      ok, data := bios.ReadLinear(drive, sector, n);
      if !ok {
        r, g', data := BiosDisk(bios, drive, g.(lba := false), sector, n);
        return;
      }
    } else {
      var a := AddressOf(g, sector);
      if Agree(g, bios.geometries[drive]) {
        AddressRoundTrip(bios.geometries[drive], sector);
        SameAddress(g, bios.geometries[drive], sector);
      }
      if a.c >= g.cylinders {
        return GeometryError, g', [];
      }
      ok, data := bios.ReadStandard(drive, a.c, a.h, a.s, n);
    }
    r := if ok then Fine else OtherError;
  }

  /** A part of a track that exists, with nothing going wrong. */
  lemma {:induction false} TryClean(g: Geometry, g': Geometry, disk: seq<byte>, sector: nat, n: nat)
    requires Sane(g) && Agree(g, g') && InGeometry(g', sector)
    ensures var t := Try(g, disk, sector, n, []); t.script == [] && t.r == if SECTOR * (sector + n) <= |disk| then Fine else OtherError
  {
    SameAddress(g, g', sector);
    SameAddress(g.(lba := false), g', sector);
  }

  /** What one turn comes to: the error, and the geometry, the track marked as present and the script that are left. */
  datatype Filled = Filled(errnum: Error, g: Geometry, track: int, script: seq<bool>)

  /**
    A track that is marked as present is not read.  Else it is read, all of it if the request ends in it, or only
    its end.  If that fails but for want of a cylinder, the sectors of a request that ends in it are tried alone.
   */
  ghost function Filling(g: Geometry, disk: seq<byte>, bufTrack: int, sector: nat, slen: nat, script: seq<bool>): (f: Filled)
    requires Sane(g)
    ensures Agree(f.g, g)
  {
    var soff := Soff(sector, g.sectors);
    var track, num := sector - soff, g.sectors - soff;
    if bufTrack == track then Filled(None, g, bufTrack, script)
    else
      var t := if slen > num then Try(g, disk, sector, num, script) else Try(g, disk, track, g.sectors, script);
      if t.r == Fine then Filled(None, t.g, track, t.script)
      else if t.r == GeometryError then Filled(Geom, t.g, -1, t.script)
      else if slen > num then Filled(Read, t.g, -1, t.script)
      else
        var u := Try(t.g, disk, sector, slen, t.script);
        Filled(if u.r == Fine then None else Read, u.g, -1, u.script)
  }

  /** One turn with nothing going wrong. */
  lemma {:induction false} FillingClean(g: Geometry, g': Geometry, disk: seq<byte>, bufTrack: int, sector: nat, slen: nat)
    requires Sane(g) && Agree(g, g') && InGeometry(g', sector) && slen >= 1
    requires SECTOR * (sector + Least(slen, g.sectors - Soff(sector, g.sectors))) <= |disk|
    ensures var f, soff := Filling(g, disk, bufTrack, sector, slen, []), Soff(sector, g.sectors);
            f.errnum == None && f.script == [] && (SECTOR * (sector - soff + g.sectors) <= |disk| ==> f.track == sector - soff)
  {
    hide InGeometry, Try;
    var soff := Soff(sector, g.sectors);
    SameTrack(g', sector);
    TryClean(g, g', disk, sector - soff, g.sectors);
    TryClean(Try(g, disk, sector - soff, g.sectors, []).g, g', disk, sector, slen);
    TryClean(g, g', disk, sector, g.sectors - soff);
  }

  /** Track by track, up to the first error. */
  ghost function Reading(g: Geometry, disk: seq<byte>, bufTrack: int, sector: nat, slen: nat, script: seq<bool>): (f: Filled)
    requires Sane(g)
    decreases slen
  {
    var num := g.sectors - Soff(sector, g.sectors);
    var f := Filling(g, disk, bufTrack, sector, slen, script);
    if slen <= num || f.errnum != None then f else Reading(f.g, disk, f.track, sector + num, slen - num, f.script)
  }

  lemma {:induction false} ReadingStep(g: Geometry, disk: seq<byte>, bufTrack: int, sector: nat, slen: nat, script: seq<bool>)
    requires Sane(g)
    ensures var num, f := g.sectors - Soff(sector, g.sectors), Filling(g, disk, bufTrack, sector, slen, script);
            Reading(g, disk, bufTrack, sector, slen, script) ==
            if slen <= num || f.errnum != None then f else Reading(f.g, disk, f.track, sector + num, slen - num, f.script)
  {
  }

  /** Not more than one of the calls to come fails. */
  ghost predicate OneFailure(script: seq<bool>) {
    forall i, j :: 0 <= i < j < |script| ==> script[i] || script[j]
  }

  ghost predicate NoFailure(script: seq<bool>) {
    forall i :: 0 <= i < |script| ==> script[i]
  }

  lemma {:induction false} NextCalls(script: seq<bool>)
    ensures NoFailure(script) ==> Lucky(script) && NoFailure(Rest(script))
    ensures OneFailure(script) ==> OneFailure(Rest(script)) && (!Lucky(script) ==> NoFailure(Rest(script)))
    ensures NoFailure(script) ==> OneFailure(script)
  {
  }

  /** A failed call of the extensions switches them off, and nothing else does. */
  lemma {:induction false} SwitchedOff(g: Geometry, disk: seq<byte>, sector: nat, n: nat, script: seq<bool>)
    requires Sane(g)
    ensures Try(g, disk, sector, n, script).g.lba <==> g.lba && Lucky(script) && SECTOR * (sector + n) <= |disk|
  {
    hide InGeometry;
  }

  /** One call that fails does no harm where there are two ways to read. */
  lemma {:induction false} TryTolerates(g: Geometry, disk: seq<byte>, sector: nat, n: nat, script: seq<bool>)
    requires Sane(g) && InGeometry(g, sector) && SECTOR * (sector + n) <= |disk| && OneFailure(script)
    ensures var t := Try(g, disk, sector, n, script);
            && OneFailure(t.script) && (t.r == Fine || t.r == OtherError)
            && (g.lba || NoFailure(script) ==> t.r == Fine) && (t.r != Fine ==> NoFailure(t.script))
            && (NoFailure(script) ==> NoFailure(t.script)) && (t.g.lba || NoFailure(t.script) || !g.lba)
  {
    hide InGeometry, OneFailure, NoFailure, Lucky, Rest;
    SameCylinder(g, g.(lba := false), sector);
    NextCalls(script);
    NextCalls(Rest(script));
  }

  lemma {:induction false} SameCylinder(g: Geometry, g': Geometry, sector: nat)
    requires Sane(g) && Agree(g, g')
    ensures InGeometry(g, sector) == InGeometry(g', sector)
  {
    SameAddress(g, g', sector);
  }

  /** What is read here and there exists, and the track that the request ends in is whole. */
  ghost predicate WholeTo(g: Geometry, disk: seq<byte>, sector: nat, slen: nat)
    requires Sane(g)
  {
    && (forall s :: sector <= s < sector + slen ==> InGeometry(g, s))
    && var last := sector + slen - 1;
       last >= 0 && SECTOR * (last - Soff(last, g.sectors) + g.sectors) <= |disk|
  }

  /** One call that fails does no harm to a read with the extensions, nor to one that ends in the track it begins in. */
  lemma {:induction false} ReadingTolerates(g: Geometry, disk: seq<byte>, bufTrack: int, sector: nat, slen: nat, script: seq<bool>)
    requires Sane(g) && slen >= 1 && WholeTo(g, disk, sector, slen) && OneFailure(script)
    requires g.lba || NoFailure(script) || slen <= g.sectors - Soff(sector, g.sectors)
    ensures Reading(g, disk, bufTrack, sector, slen, script).errnum == None
    decreases slen
  {
    hide InGeometry, OneFailure, NoFailure, Try, Soff, Filling, WholeTo;
    var num := g.sectors - Soff(sector, g.sectors);
    FillingTolerates(g, disk, bufTrack, sector, slen, script);
    var f := Filling(g, disk, bufTrack, sector, slen, script);
    if slen > num {
      WholeRest(g, f.g, disk, sector, slen, num);
      ReadingTolerates(f.g, disk, f.track, sector + num, slen - num, f.script);
    }
  }

  lemma {:induction false} FillingTolerates(g: Geometry, disk: seq<byte>, bufTrack: int, sector: nat, slen: nat, script: seq<bool>)
    requires Sane(g) && slen >= 1 && WholeTo(g, disk, sector, slen) && OneFailure(script)
    requires g.lba || NoFailure(script) || slen <= g.sectors - Soff(sector, g.sectors)
    ensures var f := Filling(g, disk, bufTrack, sector, slen, script);
            f.errnum == None && OneFailure(f.script) && (f.g.lba || NoFailure(f.script) || slen <= g.sectors - Soff(sector, g.sectors))
  {
    hide InGeometry, OneFailure, NoFailure, Try, Soff, WholeTo;
    var soff := Soff(sector, g.sectors);
    SameTrack(g, sector);
    TrackBefore(g, disk, sector, slen, soff);
    TrackFits(g, disk, sector, soff, Least(slen, g.sectors - soff));
    if slen <= g.sectors - soff {
      TryTolerates(g, disk, sector - soff, g.sectors, script);
      var t := Try(g, disk, sector - soff, g.sectors, script);
      SameCylinder(g, t.g, sector);
      TryTolerates(t.g, disk, sector, slen, t.script);
    } else {
      TryTolerates(g, disk, sector, g.sectors - soff, script);
    }
  }

  lemma {:induction false} WholeRest(g: Geometry, g': Geometry, disk: seq<byte>, sector: nat, slen: nat, num: nat)
    requires Sane(g) && Agree(g, g') && WholeTo(g, disk, sector, slen) && num < slen
    ensures WholeTo(g', disk, sector + num, slen - num)
  {
    hide InGeometry;
    forall s | sector + num <= s < sector + slen
      ensures InGeometry(g', s)
    {
      SameCylinder(g, g', s);
    }
  }

  lemma {:induction false} TrackFits(g: Geometry, disk: seq<byte>, sector: nat, soff: nat, n: nat)
    requires Sane(g) && SECTOR * (sector - soff + g.sectors) <= |disk| && n <= g.sectors - soff
    ensures SECTOR * (sector + n) <= |disk|
  {
  }

  /** The track that a request begins in does not end behind the one it ends in. */
  lemma {:induction false} TrackBefore(g: Geometry, disk: seq<byte>, sector: nat, slen: nat, soff: nat)
    requires Sane(g) && slen >= 1 && WholeTo(g, disk, sector, slen) && soff == Soff(sector, g.sectors)
    ensures SECTOR * (sector - soff + g.sectors) <= |disk| && InGeometry(g, sector)
  {
    hide InGeometry;
    var last, n := sector + slen - 1, g.sectors;
    UnitOrder(n, sector, last);
    MulOrder(sector / n, last / n, n);
    DivMod(sector, n);
    DivMod(last, n);
  }

  /** There is a reason for each error. */
  lemma {:induction false} ReadingErrors(g: Geometry, disk: seq<byte>, bufTrack: int, sector: nat, slen: nat, script: seq<bool>)
    requires Sane(g) && slen >= 1
    ensures var e := Reading(g, disk, bufTrack, sector, slen, script).errnum;
            && (e == None || e == Geom || e == Read)
            && (e == Geom ==> exists s :: sector <= s < sector + slen && !InGeometry(g, s))
    decreases slen
  {
    hide InGeometry, Try, Soff;
    var soff := Soff(sector, g.sectors);
    var num := g.sectors - soff;
    SameTrack(g, sector);
    NoCylinder(g, disk, sector - soff, g.sectors, script);
    NoCylinder(g, disk, sector, num, script);
    var f := Filling(g, disk, bufTrack, sector, slen, script);
    if slen > num && f.errnum == None {
      ReadingErrors(f.g, disk, f.track, sector + num, slen - num, f.script);
      forall s | sector + num <= s < sector + slen
        ensures InGeometry(f.g, s) == InGeometry(g, s)
      {
        SameCylinder(g, f.g, s);
      }
    }
  }

  lemma {:induction false} NoCylinder(g: Geometry, disk: seq<byte>, sector: nat, n: nat, script: seq<bool>)
    requires Sane(g)
    ensures Try(g, disk, sector, n, script).r == GeometryError ==> !InGeometry(g, sector)
  {
    hide InGeometry;
    SameCylinder(g, g.(lba := false), sector);
  }

  // ----- the cache -----------------------------------------------------------------------------------

  /** Sectors needed for `len` bytes from `off` on. */
  function SectorsFor(off: nat, len: nat): (n: nat)
    ensures off + len <= SECTOR * n < off + len + SECTOR
  {
    (off + len + SECTOR - 1) / SECTOR
  }

  /** The buffer at `at` holds `n` sectors of the disk from `sector` on. */
  ghost predicate Loaded(buffer: seq<byte>, at: nat, disk: seq<byte>, sector: nat, n: nat) {
    && SECTOR * (sector + n) <= |disk| && at + SECTOR * n <= |buffer|
    && buffer[at..at + SECTOR * n] == Slice(disk, sector, n)
  }

  ghost predicate WholeTrack(buffer: seq<byte>, disk: seq<byte>, track: nat, n: nat)
    requires n > 0
  {
    Soff(track, n) == 0 && Loaded(buffer, 0, disk, track, n)
  }

  function Overwrite(buffer: seq<byte>, data: seq<byte>): (r: seq<byte>)
    requires |data| <= |buffer|
    ensures |r| == |buffer|
  {
    data + buffer[|data|..]
  }

  lemma {:induction false} OverwriteLoaded(buffer: seq<byte>, disk: seq<byte>, sector: nat, n: nat)
    requires SECTOR * (sector + n) <= |disk| && SECTOR * n <= |buffer|
    ensures Loaded(Overwrite(buffer, Slice(disk, sector, n)), 0, disk, sector, n)
  {
  }

  /** A part of what is loaded is loaded. */
  lemma {:induction false} LoadedPart(buffer: seq<byte>, disk: seq<byte>, track: nat, n: nat, soff: nat, m: nat)
    requires Loaded(buffer, 0, disk, track, n) && soff + m <= n
    ensures Loaded(buffer, SECTOR * soff, disk, track + soff, m)
  {
    var a, b := buffer[SECTOR * soff..SECTOR * soff + SECTOR * m], Slice(disk, track + soff, m);
    var c, d := buffer[0..0 + SECTOR * n], Slice(disk, track, n);
    forall i | 0 <= i < SECTOR * m
      ensures a[i] == b[i]
    {
      assert a[i] == c[SECTOR * soff + i] == d[SECTOR * soff + i];
    }
  }

  lemma {:induction false} LoadedBytes(buffer: seq<byte>, at: nat, disk: seq<byte>, sector: nat, n: nat, off: nat, size: nat)
    requires Loaded(buffer, at, disk, sector, n) && off + size <= SECTOR * n
    ensures SECTOR * sector + off + size <= |disk|
    ensures buffer[at + off..at + off + size] == disk[SECTOR * sector + off..SECTOR * sector + off + size]
  {
    var a, b := buffer[at..at + SECTOR * n], Slice(disk, sector, n);
    var from := SECTOR * sector + off;
    var c, d := buffer[at + off..at + off + size], disk[from..from + size];
    forall i | 0 <= i < size
      ensures c[i] == d[i]
    {
      assert c[i] == a[off + i] == b[off + i];
    }
  }

  /** The sectors are on the disk, in whole sectors, and have cylinders. */
  ghost predicate Reachable(g: Geometry, disk: seq<byte>, sector: nat, n: int) {
    Sane(g) && SECTOR * (sector + n) <= |disk| && forall s :: sector <= s < sector + n ==> InGeometry(g, s)
  }

  lemma {:induction false} ReachableRest(g: Geometry, disk: seq<byte>, sector: nat, n: int, k: nat)
    requires Reachable(g, disk, sector, n)
    ensures Reachable(g, disk, sector + k, n - k)
    ensures Sane(g) && SECTOR * (sector + n) <= |disk| && (n > 0 ==> InGeometry(g, sector))
  {
    hide InGeometry;
  }

  lemma {:induction false} OverwriteTail(buffer: seq<byte>, data: seq<byte>, n: nat)
    requires |data| <= n <= |buffer|
    ensures Overwrite(buffer, data)[n..] == buffer[n..]
  {
  }

  lemma {:induction false} LoadedFits(buffer: seq<byte>, at: nat, disk: seq<byte>, sector: nat, n: nat)
    requires Loaded(buffer, at, disk, sector, n)
    ensures at + SECTOR * n <= |buffer|
  {
  }

  class Cache {
    const bios: Bios
    var bufDrive: int
    var bufTrack: int
    var geom: Geometry
    var buffer: seq<byte>
    var errnum: Error
    var currentDrive: nat
    var partStart: nat
    var partLength: nat

    ghost predicate Sound()
      reads this`bufDrive, this`bufTrack, this`geom, this`buffer, bios`disks, bios`leftover
    {
      && bios.Valid() && |buffer| == BUFFERLEN
      && (bufDrive >= 0 ==> bufDrive in bios.disks && geom.heads >= 1 && geom.sectors <= 63)
    }

    /** The geometry is that of the drive whose track is cached. */
    ghost predicate Fitting()
      reads this`bufDrive, this`bufTrack, this`geom, this`buffer, bios`disks, bios`leftover
    {
      Sound() && (bufDrive >= 0 ==> Agree(geom, bios.geometries[bufDrive]))
    }

    /** A track marked as present is there, all of it. */
    ghost predicate Holds()
      requires Fitting()
      reads this`bufDrive, this`bufTrack, this`geom, this`buffer, bios`disks, bios`leftover
    {
      bufDrive >= 0 && bufTrack >= 0 ==> WholeTrack(buffer, bios.disks[bufDrive], bufTrack, geom.sectors)
    }

    ghost predicate Valid()
      reads this`bufDrive, this`bufTrack, this`geom, this`buffer, bios`disks, bios`leftover
    {
      Fitting() && Holds()
    }

    lemma ValidIsSound()
      requires Valid()
      ensures Sound() && bios.Valid()
    {
    }

    lemma SoundBios()
      requires Sound()
      ensures bios.Valid()
    {
    }

    ghost predicate CanReach(drive: nat, sector: nat, n: int)
      requires bios.Valid()
      reads bios`disks, bios`leftover
    {
      drive in bios.disks && Reachable(bios.geometries[drive], bios.disks[drive], sector, n)
    }

    constructor (bios: Bios)
      requires bios.Valid()
      ensures Valid() && this.bios == bios && errnum == None && bufDrive == -1 && buffer == seq(BUFFERLEN, _ => 0)
    {
      this.bios := bios;
      bufDrive, bufTrack, geom, buffer, errnum := -1, 0, Geometry(false, 0, 0, 0), seq(BUFFERLEN, _ => 0), None;
      currentDrive, partStart, partLength := 0, 0, 0;
    }

    /** What the command line does before it runs a command: the cache is good again, whatever it was. */
    method Invalidate()
      requires Sound()
      modifies this`bufDrive
      ensures Valid() && bufDrive == -1
    {
      bufDrive := -1;
    }

    /** One BIOS read into the start of the buffer. */
    method ReadIn(sector: nat, n: nat) returns (r: Outcome)
      requires Sound() && bufDrive >= 0 && Sane(geom) && n <= geom.sectors
      modifies this`geom, this`buffer, bios`script
      ensures Sound() && Agree(geom, old(geom)) && buffer[SECTOR * geom.sectors..] == old(buffer)[SECTOR * geom.sectors..]
      ensures old(bios.script) == [] ==> bios.script == []
      ensures Fitting() && Soff(sector, geom.sectors) + n <= geom.sectors ==>
                && (r == Fine ==> Loaded(buffer, 0, bios.disks[bufDrive], sector, n))
                && Tried(r, geom, bios.script) == Try(old(geom), bios.disks[bufDrive], sector, n, old(bios.script))
    {
      hide Loaded, InGeometry, Bios.Valid, Try;
      var data;
      r, geom, data := BiosDisk(bios, bufDrive, geom, sector, n);
      if r == Fine {
        OverwriteTail(buffer, data, SECTOR * geom.sectors);
        if Fitting() && Soff(sector, geom.sectors) + n <= geom.sectors {
          OverwriteLoaded(buffer, bios.disks[bufDrive], sector, n);
        }
        buffer := Overwrite(buffer, data);
      }
    }

    /** Selects the drive.  If its geometry cannot be had, the one of the cached drive is lost. */
    method Select(drive: nat) returns (ok: bool)
      requires Sound()
      modifies this`bufDrive, this`bufTrack, this`geom, this`errnum, bios`script
      ensures Sound()
      ensures ok ==> bufDrive == drive && errnum == old(errnum)
      ensures ok && old(bufDrive) != drive ==> Fitting() && bufTrack == -1
      ensures old(bufDrive) == drive ==> ok && bufTrack == old(bufTrack) && geom == old(geom)
      ensures !ok ==> errnum == NoDisk && bufDrive == old(bufDrive) && bufTrack == old(bufTrack) && geom == bios.Leftover(drive)
      ensures drive !in bios.disks && old(bufDrive) != drive ==> !ok
      ensures old(bios.script) == [] ==> bios.script == [] && (drive in bios.disks ==> ok)
      ensures old(errnum) == None ==> Is(old(Outset(drive)))
    {
      ok := true;
      if bufDrive != drive {
        ok, geom := bios.DiskInfo(drive);
        if !ok {
          errnum := NoDisk;
          return;
        }
        bufDrive, bufTrack := drive, -1;
      }
    }

    /**
      Makes sure that what is needed of the current track is in the buffer, and says where.  `fits` says
      whether the cache can be relied on.
     */
    method Fill(sector: nat, slen: nat, ghost fits: bool) returns (at: nat)
      requires Sound() && bufDrive >= 0 && Sane(geom) && slen >= 1 && errnum == None
      requires fits ==> Fitting() && (Holds() || bufTrack != sector - Soff(sector, geom.sectors))
      modifies this`bufTrack, this`geom, this`buffer, this`errnum, bios`script
      ensures Sound() && Agree(geom, old(geom)) && buffer[SECTOR * geom.sectors..] == old(buffer)[SECTOR * geom.sectors..] && errnum != NoDisk
      ensures fits ==> Fitting()
      ensures fits ==>
                var num := geom.sectors - Soff(sector, geom.sectors);
                && (errnum == None ==> Loaded(buffer, at, bios.disks[bufDrive], sector, Least(slen, num)))
                && (Holds() || (errnum == None && slen > num && bufTrack == sector - Soff(sector, geom.sectors)))
                && (old(bios.script) == [] && InGeometry(bios.geometries[bufDrive], sector) && SECTOR * (sector + Least(slen, num)) <= |bios.disks[bufDrive]| ==>
                      errnum == None && (TrackOnDisk(bufDrive, sector) ==> bufTrack == sector - Soff(sector, geom.sectors)))
      ensures old(bios.script) == [] ==> bios.script == []
      ensures old(bufTrack) == sector - Soff(sector, geom.sectors) ==> errnum == None && buffer == old(buffer) && at == SECTOR * (Soff(sector, geom.sectors))
      ensures fits ==> Is(Filling(old(geom), bios.disks[bufDrive], old(bufTrack), sector, slen, old(bios.script)))
    {
      hide Loaded, InGeometry, Try, Soff;
      var soff := Soff(sector, geom.sectors);
      var track := sector - soff;
      NextTrack(sector, geom.sectors, track + geom.sectors);
      if track != bufTrack {
        if fits && bios.script == [] && InGeometry(bios.geometries[bufDrive], sector) && SECTOR * (sector + Least(slen, geom.sectors - soff)) <= |bios.disks[bufDrive]| {
          FillingClean(geom, bios.geometries[bufDrive], bios.disks[bufDrive], bufTrack, sector, slen);
        }
        at := Load(sector, slen, fits);
      } else {
        at := soff * SECTOR;
        if fits {
          LoadedPart(buffer, bios.disks[bufDrive], track, geom.sectors, soff, Least(slen, geom.sectors - soff));
        }
      }
    }

    /** Errors, geometry, track and script are as they should be after a turn. */
    ghost predicate Is(f: Filled)
      reads this`errnum, this`geom, this`bufTrack, bios`script
    {
      f == Filled(errnum, geom, bufTrack, bios.script)
    }

    /** Reads the track, or only what is needed of it. */
    method Load(sector: nat, slen: nat, ghost fits: bool) returns (at: nat)
      requires Sound() && bufDrive >= 0 && Sane(geom) && slen >= 1 && errnum == None
      requires fits ==> Fitting()
      modifies this`bufTrack, this`geom, this`buffer, this`errnum, bios`script
      ensures Sound() && Agree(geom, old(geom)) && buffer[SECTOR * geom.sectors..] == old(buffer)[SECTOR * geom.sectors..] && errnum != NoDisk
      ensures fits ==> Fitting()
      ensures fits ==>
                var num := geom.sectors - Soff(sector, geom.sectors);
                && (errnum == None ==> Loaded(buffer, at, bios.disks[bufDrive], sector, Least(slen, num)))
                && (Holds() || (errnum == None && slen > num && bufTrack == sector - Soff(sector, geom.sectors)))
      ensures old(bios.script) == [] ==> bios.script == []
      ensures fits && old(bufTrack) != sector - Soff(sector, geom.sectors) ==>
                Is(Filling(old(geom), bios.disks[bufDrive], old(bufTrack), sector, slen, old(bios.script)))
    {
      hide Loaded, InGeometry, Try, Soff;
      var soff := Soff(sector, geom.sectors);
      var track := sector - soff;
      var num := geom.sectors - soff;
      NextTrack(sector, geom.sectors, track + geom.sectors);
      if fits {
        SameTrack(bios.geometries[bufDrive], sector);
      }
      var readStart, readLen := track, geom.sectors;
      at := soff * SECTOR;
      if slen > num {
        readStart, readLen, at := sector, num, 0;
      }
      var r := ReadIn(readStart, readLen);
      if r == Fine {
        bufTrack := track;
        if fits && slen <= num {
          LoadedPart(buffer, bios.disks[bufDrive], track, geom.sectors, soff, slen);
        }
        return;
      }
      bufTrack := -1;
      if r == GeometryError {
        errnum := Geom;
      } else {
        if slen > num {
          errnum := Read;
        } else {
          r := ReadIn(sector, slen);
          if r != Fine {
            errnum := Read;
          }
        }
        at := 0;
      }
    }

    /** The whole track of the sector is on the disk. */
    ghost predicate TrackOnDisk(drive: int, sector: nat)
      requires bios.Valid()
      reads bios`disks, bios`leftover
    {
      drive in bios.disks && var n := bios.geometries[drive].sectors; n > 0 && SECTOR * (sector - Soff(sector, n) + n) <= |bios.disks[drive]|
    }

    /** The buffer was last used for the end of the track before this sector. */
    ghost predicate Between(drive: nat, sector: nat)
      reads this`bufDrive, this`bufTrack, this`geom
    {
      bufDrive == drive && bufTrack == sector - geom.sectors && geom.sectors > 0 && Soff(sector, geom.sectors) == 0
    }

    /** How a read of the drive begins. */
    ghost function Outset(drive: nat): (f: Filled)
      reads this`bufDrive, this`bufTrack, this`geom, bios`disks, bios`script, bios`leftover
    {
      if bufDrive == drive then Filled(None, geom, bufTrack, bios.script)
      else if Lucky(bios.script) && drive in bios.disks && drive in bios.geometries then Filled(None, bios.geometries[drive], -1, Rest(bios.script))
      else Filled(NoDisk, bios.Leftover(drive), bufTrack, Rest(bios.script))
    }

    /** What a read of these sectors of the drive comes to. */
    ghost function Coming(drive: nat, sector: nat, slen: nat): (f: Filled)
      reads this`bufDrive, this`bufTrack, this`geom, bios`disks, bios`script, bios`leftover
    {
      var f := Outset(drive);
      if f.errnum != None || drive !in bios.disks || !Sane(f.g) then f else Reading(f.g, bios.disks[drive], f.track, sector, slen, f.script)
    }

    /** Nothing stands in the way of reading these sectors. */
    ghost predicate Easy(drive: nat, sector: nat, n: int)
      requires bios.Valid()
      reads this, bios
    {
      errnum == None && bios.script == [] && (Valid() || bufDrive != drive) && CanReach(drive, sector, n)
    }

    /** A request that the cached track seems to serve. */
    ghost predicate Hit(drive: nat, sector: nat, off: nat, len: int)
      reads this`bufDrive, this`bufTrack, this`geom, this`errnum
    {
      && errnum == None && bufDrive == drive && len > 0 && geom.sectors > 0 && bufTrack == sector - Soff(sector, geom.sectors)
      && SectorsFor(off, len) <= geom.sectors - Soff(sector, geom.sectors)
    }

    /** What one track contributes: its end, or all that is left. */
    method Piece(sector: nat, off: nat, len: nat, slen: nat, ghost fits: bool) returns (size: nat, bytes: seq<byte>, num: nat)
      requires Sound() && bufDrive >= 0 && Sane(geom) && off < SECTOR && len > 0 && slen == SectorsFor(off, len) && errnum == None
      requires fits ==> Fitting() && (Holds() || Between(bufDrive, sector))
      modifies this`bufTrack, this`geom, this`buffer, this`errnum, bios`script
      ensures Sound() && Agree(geom, old(geom)) && buffer[SECTOR * geom.sectors..] == old(buffer)[SECTOR * geom.sectors..] && errnum != NoDisk
      ensures 0 < size <= len && num == geom.sectors - Soff(sector, geom.sectors) >= 1 && (slen <= num <==> size == len)
      ensures fits ==> Is(Filling(old(geom), bios.disks[bufDrive], old(bufTrack), sector, slen, old(bios.script)))
      ensures size < len ==> off + size == SECTOR * num && slen - num == SectorsFor(0, len - size)
      ensures fits ==> Fitting()
      ensures fits && errnum == None ==>
                var from, disk := SECTOR * sector + off, bios.disks[bufDrive];
                from + size <= |disk| && bytes == disk[from..from + size]
      ensures fits ==> Holds() || (errnum == None && size < len && Between(bufDrive, sector + num))
      ensures old(bios.script) == [] ==> bios.script == []
      ensures fits && old(bios.script) == [] && InGeometry(bios.geometries[bufDrive], sector) && SECTOR * (sector + slen) <= |bios.disks[bufDrive]| ==>
                errnum == None && (TrackOnDisk(bufDrive, sector) ==> bufTrack == sector - Soff(sector, geom.sectors))
      ensures old(Hit(bufDrive, sector, off, len)) ==>
                errnum == None && var at := SECTOR * (Soff(sector, geom.sectors)) + off; at + len <= |old(buffer)| && bytes == old(buffer)[at..at + len]
    {
      hide Loaded, InGeometry, Bios.Valid, Filling, Soff;
      var soff := Soff(sector, geom.sectors);
      num := geom.sectors - soff;
      NextTrack(sector, geom.sectors, sector + num);
      var at := Fill(sector, slen, fits);
      size := Least(len, num * SECTOR - off);
      bytes := if at + off + size <= |buffer| then buffer[at + off..at + off + size] else [];
      if fits && errnum == None {
        LoadedBytes(buffer, at, bios.disks[bufDrive], sector, Least(slen, num), off, size);
        LoadedFits(buffer, at, bios.disks[bufDrive], sector, Least(slen, num));
      }
    }

    /** Selects the drive and makes sure that its tracks have sectors. */
    method Prepare(drive: nat, sector: nat, ghost fits: bool) returns (ok: bool)
      requires Sound() && errnum == None
      requires fits ==> bufDrive != drive || (Fitting() && (Holds() || Between(drive, sector)))
      modifies this`bufDrive, this`bufTrack, this`geom, this`errnum, bios`script
      ensures Sound()
      ensures !ok ==> if errnum == NoDisk then bufDrive == old(bufDrive) != drive && bufTrack == old(bufTrack) && geom == bios.Leftover(drive)
                      else errnum == Trap && !fits && bufDrive == old(bufDrive) == drive
      ensures drive !in bios.disks && old(bufDrive) != drive ==> !ok && errnum == NoDisk
      ensures ok ==> bufDrive == drive && Sane(geom) && errnum == None
      ensures ok && fits ==> Fitting() && (Holds() || Between(drive, sector))
      ensures old(bios.script) == [] ==> bios.script == [] && (fits && drive in bios.disks ==> ok)
      ensures old(bufDrive) == drive && old(geom).sectors > 0 ==> ok && bufTrack == old(bufTrack) && geom == old(geom)
      ensures fits ==> Is(old(Outset(drive))) && (ok <==> errnum == None)
    {
      hide Loaded, WholeTrack, Soff;
      ok := Select(drive);
      if ok && geom.sectors == 0 {
        errnum := Trap;
        ok := false;
      }
    }

    /** One turn of the loop: selects the drive and takes what the track has. */
    method Turn(drive: nat, sector: nat, off: nat, len: nat, slen: nat, ghost fits: bool) returns (ok: bool, size: nat, bytes: seq<byte>, num: nat)
      requires Sound() && off < SECTOR && len > 0 && slen == SectorsFor(off, len) && errnum == None
      requires fits ==> bufDrive != drive || (Fitting() && (Holds() || Between(drive, sector)))
      modifies this`bufDrive, this`bufTrack, this`geom, this`buffer, this`errnum, bios`script
      ensures Sound()
      ensures !ok ==> if errnum == NoDisk then bufDrive == old(bufDrive) != drive && bufTrack == old(bufTrack) && geom == bios.Leftover(drive) && buffer == old(buffer)
                      else errnum == Trap && !fits && bufDrive == old(bufDrive) == drive
      ensures drive !in bios.disks && old(bufDrive) != drive ==> !ok && errnum == NoDisk
      ensures ok ==> bufDrive == drive && geom.sectors > 0 && 0 < size <= len && errnum != NoDisk
      ensures ok ==> buffer[SECTOR * geom.sectors..] == old(buffer)[SECTOR * geom.sectors..]
      ensures ok && size < len ==> off + size == SECTOR * num && slen - num == SectorsFor(0, len - size)
      ensures fits ==> (ok <==> old(Outset(drive)).errnum == None)
      ensures fits && !ok ==> Is(old(Outset(drive)))
      ensures fits && ok ==> var f := old(Outset(drive));
                && Sane(f.g) && Is(Filling(f.g, bios.disks[drive], f.track, sector, slen, f.script))
                && num == f.g.sectors - Soff(sector, f.g.sectors) && (size == len <==> slen <= num)
      ensures ok && fits ==> Fitting() && (Holds() || (errnum == None && size < len && Between(drive, sector + num)))
      ensures ok && fits && errnum == None ==>
                var from, disk := SECTOR * sector + off, bios.disks[drive];
                from + size <= |disk| && bytes == disk[from..from + size]
      ensures fits && old(bios.script) == [] && CanReach(drive, sector, slen) ==>
                && ok && errnum == None && bios.script == [] && CanReach(drive, sector + num, slen - num)
                && (TrackOnDisk(drive, sector) && Soff(sector, geom.sectors) + slen <= geom.sectors ==> size == len && bufTrack == sector - Soff(sector, geom.sectors))
      ensures old(Hit(drive, sector, off, len)) ==>
                ok && errnum == None && size == len && var at := SECTOR * (Soff(sector, old(geom).sectors)) + off; at + len <= |old(buffer)| && bytes == old(buffer)[at..at + len]
    {
      hide Loaded, InGeometry, Reachable, SectorsFor, WholeTrack, Soff, Filling;
      size, bytes, num := 0, [], 0;
      ghost var good := CanReach(drive, sector, slen);
      if good {
        ReachableRest(bios.geometries[drive], bios.disks[drive], sector, slen, 0);
      }
      ok := Prepare(drive, sector, fits);
      if !ok {
        return;
      }
      size, bytes, num := Piece(sector, off, len, slen, fits);
      if good {
        ReachableRest(bios.geometries[drive], bios.disks[drive], sector, slen, num);
      }
    }

    /**
      `rawread`.  From a valid cache, or on another drive than the cached one, what it returns is what
      is on the disk, and a track it leaves marked as present is wholly present.  A drive whose geometry
      cannot be had leaves another geometry behind with the old drive and track: the cache is then valid
      exactly if that geometry agrees with the drive's, or if no drive was cached.
     */
    method RawRead(drive: nat, sector: nat, byteOffset: nat, byteLen: int) returns (ok: bool, out: seq<byte>)
      requires Sound() && byteOffset < SECTOR
      modifies this`bufDrive, this`bufTrack, this`geom, this`buffer, this`errnum, bios`script
      ensures Sound()
      ensures byteLen <= 0 ==> ok && out == [] && errnum == old(errnum)
      ensures byteLen > 0 ==> (ok <==> errnum == None)
      ensures old(errnum) != None ==> errnum == old(errnum)
      ensures byteLen > 0 && ok && (old(Valid()) || old(bufDrive) != drive) ==>
                var from := SECTOR * sector + byteOffset;
                drive in bios.disks && from + byteLen <= |bios.disks[drive]| && out == bios.disks[drive][from..from + byteLen]
      ensures old(Valid()) && (errnum != NoDisk || old(errnum) != None) ==> Valid()
      ensures old(Valid()) && errnum == NoDisk && old(errnum) == None ==>
                (Valid() <==> old(bufDrive) < 0 || Agree(bios.Leftover(drive), bios.geometries[old(bufDrive)]))
      ensures byteLen > 0 && old(errnum) == None && old(bufDrive) != drive && errnum != NoDisk ==> Valid() && bufDrive == drive
      ensures errnum == NoDisk && old(errnum) == None ==> bufDrive == old(bufDrive) && bufTrack == old(bufTrack) && geom == bios.Leftover(drive) && buffer == old(buffer)
      ensures byteLen > 0 && old(errnum) == None && drive !in bios.disks && old(bufDrive) != drive ==> errnum == NoDisk
      ensures byteLen > 0 && old(errnum) == None && (old(Valid()) || old(bufDrive) != drive) ==> Is(old(Coming(drive, sector, SectorsFor(byteOffset, byteLen))))
      ensures old(Hit(drive, sector, byteOffset, byteLen)) ==>
                ok && var at := SECTOR * (Soff(sector, old(geom).sectors)) + byteOffset; at + byteLen <= |old(buffer)| && out == old(buffer)[at..at + byteLen]
      ensures byteLen > 0 && old(Easy(drive, sector, SectorsFor(byteOffset, byteLen))) ==>
                && ok && bufDrive == drive && geom.sectors > 0 && bios.script == []
                && (TrackOnDisk(drive, sector) && Soff(sector, geom.sectors) + SectorsFor(byteOffset, byteLen) <= geom.sectors ==>
                      bufTrack == sector - Soff(sector, geom.sectors) && buffer[SECTOR * geom.sectors..] == old(buffer)[SECTOR * geom.sectors..])
    {
      hide Loaded, InGeometry, Reachable, WholeTrack, SectorsFor, Bios.Valid, Soff, Filling, Outset;
      out := [];
      if byteLen <= 0 {
        return true, out;
      }
      if errnum != None {
        return false, out;
      }
      ghost var fits := Valid() || bufDrive != drive;
      var size, bytes, num;
      ok, size, bytes, num := Turn(drive, sector, byteOffset, byteLen, SectorsFor(byteOffset, byteLen), fits);
      if !ok {
        return;
      }
      out := bytes;
      if size < byteLen && errnum == None {
        out := RawReadOn(drive, sector, byteOffset, byteLen, size, num, bytes, fits);
      }
      ok := errnum == None;
    }

    /** The turns after the first. */
    method RawReadOn(drive: nat, sector: nat, byteOffset: nat, byteLen: nat, size: nat, num: nat, bytes: seq<byte>, ghost fits: bool) returns (out: seq<byte>)
      requires Sound() && byteOffset < SECTOR && errnum == None && bufDrive == drive && geom.sectors > 0
      requires 0 < size < byteLen && byteOffset + size == SECTOR * num && SectorsFor(byteOffset, byteLen) - num == SectorsFor(0, byteLen - size)
      requires fits ==> Fitting() && (Holds() || Between(drive, sector + num))
      requires fits ==>
                 var from := SECTOR * sector + byteOffset;
                 && SectorsFor(byteOffset, byteLen) - num >= 0
                 && from + size <= |bios.disks[drive]| && bytes == bios.disks[drive][from..from + size]
      modifies this`bufDrive, this`bufTrack, this`geom, this`buffer, this`errnum, bios`script
      ensures Sound() && errnum != NoDisk && bufDrive == drive
      ensures fits ==> Valid() && Is(Reading(old(geom), bios.disks[drive], old(bufTrack), sector + num, SectorsFor(byteOffset, byteLen) - num, old(bios.script)))
      ensures fits && errnum == None ==>
                var from := SECTOR * sector + byteOffset;
                from + byteLen <= |bios.disks[drive]| && out == bios.disks[drive][from..from + byteLen]
      ensures fits && old(bios.script) == [] && CanReach(drive, sector + num, SectorsFor(byteOffset, byteLen) - num) ==> errnum == None && bios.script == []
    {
      hide Loaded, InGeometry, Reachable, WholeTrack, SectorsFor, Bios.Valid, Soff, Between, Filling, Reading, Holds, CanReach, Got, Sound, Fitting, Hit, TrackOnDisk;
      SoundSane();
      if fits {
        GotIs(bios.disks[drive], SECTOR * sector + byteOffset, bytes);
      }
      out := bytes;
      var sector': nat, off: nat, len: nat, slen: int := sector + num, 0, byteLen - size, SectorsFor(byteOffset, byteLen) - num;
      ghost var from := SECTOR * sector + byteOffset;
      ghost var coming := if fits then Reading(geom, bios.disks[drive], bufTrack, sector', slen, bios.script) else Filled(None, geom, bufTrack, bios.script);
      ghost var good := fits && bios.script == [] && CanReach(drive, sector', slen);
      while len > 0 && errnum == None
        invariant Sound() && len <= byteLen && off == 0 && bufDrive == drive && errnum != NoDisk
        invariant fits ==> Fitting() && (Holds() || (len > 0 && errnum == None && Between(drive, sector')))
        invariant good ==> errnum == None && bios.script == [] && (len > 0 ==> CanReach(drive, sector', slen))
        invariant fits ==> if errnum == None && len > 0 then slen >= 0 && Sane(geom) && coming == Reading(geom, bios.disks[drive], bufTrack, sector', slen, bios.script) else Is(coming)
        invariant errnum == None && len > 0 ==> SECTOR * sector' == from + (byteLen - len) && slen == SectorsFor(off, len)
        invariant fits && errnum == None ==> |out| == byteLen - len && Got(bios.disks[drive], from, out)
        decreases len
      {
        if fits {
          ReadingStep(geom, bios.disks[drive], bufTrack, sector', slen, bios.script);
        }
        var ok, size', bytes', num' := Turn(drive, sector', off, len, slen, fits);
        if !ok {
          return;
        }
        SoundSane();
        if fits && errnum == None {
          Appended(bios.disks[drive], from, out, SECTOR * sector', bytes');
        }
        out := out + bytes';
        len, sector', slen := len - size', sector' + num', slen - num';
      }
      if fits {
        GotIs(bios.disks[drive], from, out);
        FittingHolds();
      }
    }

    lemma SoundSane()
      requires Sound() && bufDrive >= 0 && geom.sectors > 0
      ensures Sane(geom) && bios.Valid() && bufDrive in bios.disks
    {
    }

    lemma FittingHolds()
      requires Fitting() && Holds()
      ensures Valid()
    {
    }

    /** Writing back the first sector, as `make_saved_active` and `set_partition_hidden_flag` do: the cache is dropped first. */
    method WriteBack(drive: nat, data: seq<byte>) returns (ok: bool)
      requires Sound() && drive in bios.disks && |data| == SECTOR
      modifies this`bufTrack, this`errnum, bios
      ensures Sound() && (old(Fitting()) ==> Valid()) && drive in old(bios.disks)
      ensures if ok then Fits(old(bios.disks)[drive], 0) && bios.disks == old(bios.disks)[drive := Replaced(old(bios.disks)[drive], 0, data)]
              else bios.disks == old(bios.disks) && errnum == WriteFailed
    {
      bufTrack := -1;
      ok := bios.WriteSector(drive, 0, data);
      if !ok {
        errnum := WriteFailed;
      }
    }

    /** Inside the partition, all of it. */
    predicate InPartition(sector: int, byteOffset: nat, byteLen: int)
      reads this`partLength
    {
      sector >= 0 && SECTOR * sector + byteOffset + byteLen <= SECTOR * partLength
    }

    /** `devread`: a read that stays inside the partition, with any byte offset. */
    method DevRead(sector: int, byteOffset: nat, byteLen: int) returns (ok: bool, out: seq<byte>)
      requires Sound()
      modifies this`bufDrive, this`bufTrack, this`geom, this`buffer, this`errnum, bios`script
      ensures Sound() && (old(Valid()) && (errnum != NoDisk || old(errnum) != None) ==> Valid())
      ensures byteLen > 0 ==> (ok <==> errnum == None)
      ensures old(errnum) != None ==> errnum != None
      ensures byteLen <= 0 ==> (ok ==> errnum == old(errnum)) && (!ok ==> errnum == Outside)
      ensures byteLen > 0 && ok ==> InPartition(sector, byteOffset, byteLen)
      ensures byteLen > 0 && ok && (old(Valid()) || old(bufDrive) != currentDrive) ==>
                && var from := SECTOR * (partStart + sector) + byteOffset;
                   && currentDrive in bios.disks && from + byteLen <= |bios.disks[currentDrive]|
                   && out == bios.disks[currentDrive][from..from + byteLen]
      ensures byteLen > 0 && old(errnum) == None && !InPartition(sector, byteOffset, byteLen) ==> errnum == Outside
      ensures byteLen > 0 && old(errnum) == None && InPartition(sector, byteOffset, byteLen) && (old(Valid()) || old(bufDrive) != currentDrive) ==>
                Is(old(Coming(currentDrive, partStart + sector + byteOffset / SECTOR, SectorsFor(byteOffset % SECTOR, byteLen))))
      ensures byteLen > 0 && InPartition(sector, byteOffset, byteLen) && old(Easy(currentDrive, partStart + sector + byteOffset / SECTOR, SectorsFor(byteOffset % SECTOR, byteLen))) ==> ok && bios.script == []
    {
      hide Loaded, InGeometry, Reachable, WholeTrack, SectorsFor, Bios.Valid, Soff;
      if sector < 0 || sector + (byteOffset + byteLen - 1) / SECTOR >= partLength {
        errnum := Outside;
        return false, [];
      }
      var sector' := sector + byteOffset / SECTOR;
      ok, out := RawRead(currentDrive, partStart + sector', byteOffset % SECTOR, byteLen);
    }
  }

  /**
    The track of floppy 0 is cached, then hard disk 0x80 does not answer, then the floppy is read again: the
    read succeeds, and what it returns is not on the disk.
   */
  method StaleTrackExample() returns (ok: bool, out: seq<byte>, ghost disk: seq<byte>)
    ensures |disk| == 40 * SECTOR && ok && out != disk[20 * SECTOR..21 * SECTOR]
  {
    hide Loaded, WholeTrack, Reachable, InGeometry, SectorsFor, Reading, Cache.CanReach, Cache.TrackOnDisk, Cache.Holds, Cache.Is, Cache.Coming, Cache.Outset, Soff, Cache.Valid, Cache.Fitting, Cache.Easy;
    var ones := seq(40 * SECTOR, _ => 1);
    disk := ones;
    var bios := new Bios(map[0 := Geometry(false, 2, 2, 18)], map[0 := ones], [], Geometry(false, 1, 1, 63));
    var c := FirstTrack(bios);
    c.ValidIsSound();
    ok, out := c.RawRead(0x80, 0, 0, SECTOR);
    c.errnum := None;
    ExampleHit();
    ghost var before := c.buffer;
    ok, out := c.RawRead(0, 20, 0, SECTOR);
    assert out[0] == before[20 * SECTOR];
    assert disk[20 * SECTOR..21 * SECTOR][0] == 1;
  }

  lemma {:induction false} ExampleHit()
    ensures Soff(20, 63) == 20 && Soff(0, 18) == 0 && SectorsFor(0, SECTOR) == 1
  {
  }

  /** A new cache that has read the first track of the floppy.  Behind the track, it is as it was. */
  method FirstTrack(bios: Bios) returns (c: Cache)
    requires bios.Valid() && 0 in bios.disks && bios.geometries[0] == Geometry(false, 2, 2, 18) && |bios.disks[0]| == 40 * SECTOR && bios.script == []
    modifies bios`script
    ensures fresh(c) && c.bios == bios && c.Valid() && c.errnum == None && c.bufDrive == 0 && c.bufTrack == 0 && c.buffer[20 * SECTOR] == 0 && bios.script == []
  {
    hide Loaded, WholeTrack, Reachable, InGeometry, SectorsFor, Reading, Cache.CanReach, Cache.TrackOnDisk, Cache.Holds, Cache.Is, Cache.Coming, Cache.Outset, Soff;
    c := new Cache(bios);
    ExampleReach(c);
    ExampleHit();
    ghost var zeros := c.buffer;
    var ok, out := c.RawRead(0, 0, 0, SECTOR);
    ghost var tail := c.buffer[18 * SECTOR..];
    assert tail == zeros[18 * SECTOR..];
    assert tail[2 * SECTOR] == zeros[20 * SECTOR];
  }

  /** The extensions fail once: the sectors are read by cylinder, head and sector. */
  method FallbackExample(disk: seq<byte>) returns (ok: bool, out: seq<byte>)
    requires |disk| == 72 * SECTOR
    ensures ok && out == disk[17 * SECTOR..19 * SECTOR]
  {
    hide Loaded, WholeTrack, Reachable, InGeometry, Reading, Cache.CanReach, Cache.TrackOnDisk, Cache.Holds, WholeTo, OneFailure, Soff;
    var g := Geometry(true, 2, 2, 18);
    var bios := new Bios(map[0x80 := g], map[0x80 := disk], [true, false], g);
    var c := new Cache(bios);
    AllOfIt(g, disk);
    ReadingTolerates(g, disk, -1, 17, 2, [false]);
    ok, out := c.RawRead(0x80, 17, 0, 2 * SECTOR);
  }

  lemma {:induction false} AllOfIt(g: Geometry, disk: seq<byte>)
    requires g == Geometry(true, 2, 2, 18) && |disk| == 72 * SECTOR
    ensures WholeTo(g, disk, 17, 2) && OneFailure([false]) && SectorsFor(0, 2 * SECTOR) == 2 && Rest([true, false]) == [false]
  {
  }

  lemma {:induction false} ExampleReach(c: Cache)
    requires c.bios.Valid() && 0 in c.bios.disks && c.bios.geometries[0] == Geometry(false, 2, 2, 18) && |c.bios.disks[0]| == 40 * SECTOR
    ensures c.CanReach(0, 0, SectorsFor(0, SECTOR)) && c.TrackOnDisk(0, 0) && SectorsFor(0, SECTOR) == 1
  {
    assert AddressOf(Geometry(false, 2, 2, 18), 0).c == 0;
  }

  /** These are the bytes of the disk from there on. */
  ghost predicate Got(disk: seq<byte>, from: nat, out: seq<byte>) {
    from + |out| <= |disk| && out == disk[from..from + |out|]
  }

  lemma {:induction false} GotIs(disk: seq<byte>, from: nat, out: seq<byte>)
    ensures Got(disk, from, out) <==> from + |out| <= |disk| && out == disk[from..from + |out|]
  {
  }

  lemma {:induction false} Appended(disk: seq<byte>, from: nat, out: seq<byte>, at: nat, bytes: seq<byte>)
    requires Got(disk, from, out) && at == from + |out| && at + |bytes| <= |disk| && bytes == disk[at..at + |bytes|]
    ensures Got(disk, from, out + bytes)
  {
  }
}
