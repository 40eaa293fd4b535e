/**
  The XFS scanner of the image tool: from the free-space metadata of every allocation group to a
  bitmap with one byte (eight sectors) per block.
 */
module XfsFreeSpace {
  import opened Bits

  const AGFL_SIZE: nat := 128
  const FULL: byte := 255

  datatype Rec = Rec(start: nat, count: nat)

  /** A block of a free-space tree, seen as a leaf and as an inner node. */
  datatype View = View(recs: seq<Rec>, ptrs: seq<nat>)

  /** The header of an allocation group. */
  datatype Agf = Agf(magic: bool, seqno: nat, flcount: nat, flfirst: nat, fllast: nat, root: nat, levels: nat)

  /** The metadata on disk: group headers, free lists by group number, tree blocks by block number. */
  datatype Fs = Fs(blocks: nat, fdblocks: nat, agblocks: nat, agfs: seq<Agf>, agfls: map<nat, seq<nat>>, trees: map<nat, View>)

  /** The file system block number of a block of a group. */
  function BlockNo(fs: Fs, agno: nat, b: nat): (r: nat) {
    agno * fs.agblocks + b
  }

  /** The groups lie one behind the other: a block number tells its group and its place there. */
  lemma {:induction false} GroupsTile(fs: Fs, agno: nat, b: nat)
    requires b < fs.agblocks
    ensures BlockNo(fs, agno, b) / fs.agblocks == agno && BlockNo(fs, agno, b) % fs.agblocks == b
    ensures BlockNo(fs, agno, 0) == agno * fs.agblocks && BlockNo(fs, agno, fs.agblocks) == BlockNo(fs, agno + 1, 0)
  {
    DivModUnique(BlockNo(fs, agno, b), fs.agblocks, agno, b);
    MulDistributes(agno, 1, fs.agblocks);
  }

  function ViewAt(fs: Fs, n: nat): (v: View) {
    if n in fs.trees then fs.trees[n] else View([], [])
  }

  function ListAt(fs: Fs, agno: nat): (l: seq<nat>)
    ensures |l| == AGFL_SIZE
  {
    if agno in fs.agfls && |fs.agfls[agno]| == AGFL_SIZE then fs.agfls[agno] else seq(AGFL_SIZE, _ => 0)
  }

  // ----- what is free -------------------------------------------------------------------------

  /** Block `b` is in a leaf extent of the tree with this root and this many levels. */
  ghost predicate InTree(fs: Fs, agno: nat, root: nat, levels: nat, b: nat)
    decreases levels
  {
    var v := ViewAt(fs, BlockNo(fs, agno, root));
    if levels <= 1 then exists i :: 0 <= i < |v.recs| && InExtent(fs, agno, v.recs[i], b)
    else exists i :: 0 <= i < |v.ptrs| && InTree(fs, agno, v.ptrs[i], levels - 1, b)
  }

  ghost predicate InExtent(fs: Fs, agno: nat, r: Rec, b: nat) {
    BlockNo(fs, agno, r.start) <= b < BlockNo(fs, agno, r.start) + r.count
  }

  /** Place `i` is between the first and the last, going round. */
  predicate Between(first: nat, last: nat, i: nat) {
    if first <= last then first <= i <= last else i >= first || i <= last
  }

  ghost predicate InList(fs: Fs, agf: Agf, b: nat) {
    && agf.flcount != 0
    && exists i :: 0 <= i < AGFL_SIZE && Between(agf.flfirst, agf.fllast, i) && Listed(fs, agf.seqno, i, b)
  }

  ghost predicate Listed(fs: Fs, agno: nat, i: nat, b: nat)
    requires i < AGFL_SIZE
  {
    b == BlockNo(fs, agno, ListAt(fs, agno)[i])
  }

  ghost predicate IsFree(fs: Fs, agf: Agf, b: nat) {
    InList(fs, agf, b) || InTree(fs, agf.seqno, agf.root, agf.levels, b)
  }

  // The same as sets of blocks.

  ghost function ExtentSet(fs: Fs, agno: nat, r: Rec): (s: iset<nat>) {
    iset n: nat | InExtent(fs, agno, r, n)
  }

  ghost function PlaceSet(fs: Fs, agno: nat, i: nat): (r: iset<nat>)
    requires i < AGFL_SIZE
  {
    iset n: nat | Listed(fs, agno, i, n)
  }

  ghost function ListSet(fs: Fs, agf: Agf): (r: iset<nat>) {
    iset n: nat | InList(fs, agf, n)
  }

  ghost function SeenSet(fs: Fs, agf: Agf, i: nat): (r: iset<nat>) {
    iset n: nat | SeenUpTo(fs, agf, i, n)
  }

  ghost function TreeSet(fs: Fs, agno: nat, root: nat, levels: nat): (r: iset<nat>) {
    iset n: nat | InTree(fs, agno, root, levels, n)
  }

  ghost function RecSet(fs: Fs, agno: nat, recs: seq<Rec>, k: nat): (r: iset<nat>)
    requires k <= |recs|
  {
    iset n: nat | InRecs(fs, agno, recs, k, n)
  }

  ghost function PtrSet(fs: Fs, agno: nat, ptrs: seq<nat>, levels: nat, k: nat): (r: iset<nat>)
    requires k <= |ptrs|
  {
    iset n: nat | InPtrs(fs, agno, ptrs, levels, k, n)
  }

  ghost function GroupSet(fs: Fs, agf: Agf): (r: iset<nat>) {
    iset n: nat | IsFree(fs, agf, n)
  }

  ghost function FreeSet(fs: Fs, k: nat): (r: iset<nat>)
    requires k <= |fs.agfs|
  {
    iset n: nat | FreeIn(fs, k, n)
  }

  // ----- well-formed metadata --------------------------------------------------------------------

  ghost predicate TreeOK(fs: Fs, agno: nat, root: nat, levels: nat)
    decreases levels
  {
    var v := ViewAt(fs, BlockNo(fs, agno, root));
    && levels >= 1
    && if levels == 1 then forall i :: 0 <= i < |v.recs| ==> ExtentOK(fs, agno, v.recs[i])
       else forall i :: 0 <= i < |v.ptrs| ==> TreeOK(fs, agno, v.ptrs[i], levels - 1)
  }

  ghost predicate ExtentOK(fs: Fs, agno: nat, r: Rec) {
    BlockNo(fs, agno, r.start) + r.count <= fs.blocks
  }

  ghost predicate ListOK(fs: Fs, agf: Agf) {
    agf.flcount != 0 ==>
      && agf.flfirst < AGFL_SIZE && agf.fllast < AGFL_SIZE
      && forall i :: 0 <= i < AGFL_SIZE && Between(agf.flfirst, agf.fllast, i) ==> BlockNo(fs, agf.seqno, ListAt(fs, agf.seqno)[i]) < fs.blocks
  }

  ghost predicate GroupOK(fs: Fs, agf: Agf) {
    ListOK(fs, agf) && TreeOK(fs, agf.seqno, agf.root, agf.levels)
  }

  // ----- clearing -----------------------------------------------------------------------------------

  /** The bytes of the set are zero, all others as before. */
  ghost predicate Cleared(before: seq<byte>, after: seq<byte>, s: iset<nat>) {
    |after| == |before| && forall b: nat :: b < |before| ==> after[b] == if b in s then 0 else before[b]
  }

  lemma {:induction false} ClearedBoth(x: seq<byte>, y: seq<byte>, z: seq<byte>, s: iset<nat>, t: iset<nat>, u: iset<nat>)
    requires Cleared(x, y, s) && Cleared(y, z, t) && (forall b :: b in u <==> b in s || b in t)
    ensures Cleared(x, z, u)
  {
  }

  /** `addtohist`: the blocks of an extent are free. */
  method AddToHist(bitmap: array<byte>, fs: Fs, agno: nat, b: nat, len: nat)
    requires bitmap.Length == fs.blocks && ExtentOK(fs, agno, Rec(b, len))
    modifies bitmap
    ensures Cleared(old(bitmap[..]), bitmap[..], ExtentSet(fs, agno, Rec(b, len)))
  {
    var base := BlockNo(fs, agno, b);
    for i := 0 to len
      invariant forall n :: 0 <= n < bitmap.Length ==> bitmap[n] == if base <= n < base + i then 0 else old(bitmap[n])
    {
      bitmap[base + i] := 0;
    }
  }

  /** The places from the first one up to, but not including, `i`, going round. */
  predicate Passed(first: nat, i: nat, n: nat) {
    if first <= i then first <= n < i else n >= first || n < i
  }

  function Ahead(i: nat, last: nat): (n: nat)
    requires i < AGFL_SIZE && last < AGFL_SIZE
  {
    if i <= last then last - i else AGFL_SIZE - i + last
  }

  /** `scanFreelist`. */
  method ScanFreelist(bitmap: array<byte>, fs: Fs, agf: Agf)
    requires bitmap.Length == fs.blocks && ListOK(fs, agf)
    modifies bitmap
    ensures Cleared(old(bitmap[..]), bitmap[..], ListSet(fs, agf))
  {
    if agf.flcount == 0 {
      return;
    }
    var list := ListAt(fs, agf.seqno);
    var i: nat := agf.flfirst;
    while true
      invariant i < AGFL_SIZE && Between(agf.flfirst, agf.fllast, i)
      invariant Cleared(old(bitmap[..]), bitmap[..], SeenSet(fs, agf, i))
      decreases Ahead(i, agf.fllast)
    {
      ghost var now := bitmap[..];
      ghost var was := i;
      AddToHist(bitmap, fs, agf.seqno, list[i], 1);
      OneBlock(fs, agf.seqno, i);
      if i == agf.fllast {
        LastSeen(fs, agf);
        ClearedBoth(old(bitmap[..]), now, bitmap[..], SeenSet(fs, agf, was), PlaceSet(fs, agf.seqno, was), ListSet(fs, agf));
        return;
      }
      i := i + 1;
      if i == AGFL_SIZE {
        i := 0;
      }
      OneMoreSeen(fs, agf, was, i);
      ClearedBoth(old(bitmap[..]), now, bitmap[..], SeenSet(fs, agf, was), PlaceSet(fs, agf.seqno, was), SeenSet(fs, agf, i));
    }
  }

  /** Block `b` was in a place passed on the way from the first place to place `i`. */
  ghost predicate SeenUpTo(fs: Fs, agf: Agf, i: nat, b: nat) {
    exists k :: 0 <= k < AGFL_SIZE && Passed(agf.flfirst, i, k) && Listed(fs, agf.seqno, k, b)
  }

  lemma {:induction false} OneBlock(fs: Fs, agno: nat, i: nat)
    requires i < AGFL_SIZE
    ensures ExtentSet(fs, agno, Rec(ListAt(fs, agno)[i], 1)) == PlaceSet(fs, agno, i)
  {
  }

  lemma {:induction false} OneMoreSeen(fs: Fs, agf: Agf, i: nat, j: nat)
    requires i < AGFL_SIZE && agf.flfirst < AGFL_SIZE && agf.fllast < AGFL_SIZE && j == if i + 1 == AGFL_SIZE then 0 else i + 1
    requires Between(agf.flfirst, agf.fllast, i) && i != agf.fllast
    ensures forall b :: SeenUpTo(fs, agf, j, b) <==> SeenUpTo(fs, agf, i, b) || Listed(fs, agf.seqno, i, b)
    ensures Between(agf.flfirst, agf.fllast, j)
  {
    hide Listed;
    assert forall k :: 0 <= k < AGFL_SIZE ==> (Passed(agf.flfirst, j, k) <==> Passed(agf.flfirst, i, k) || k == i);
  }

  lemma {:induction false} LastSeen(fs: Fs, agf: Agf)
    requires agf.flfirst < AGFL_SIZE && agf.fllast < AGFL_SIZE && agf.flcount != 0
    ensures forall b :: InList(fs, agf, b) <==> SeenUpTo(fs, agf, agf.fllast, b) || Listed(fs, agf.seqno, agf.fllast, b)
  {
    hide Listed;
    var i := agf.fllast;
    assert forall k :: 0 <= k < AGFL_SIZE ==> (Between(agf.flfirst, i, k) <==> Passed(agf.flfirst, i, k) || k == i);
  }

  // ----- the tree --------------------------------------------------------------------------------------

  /** `scanSbtree`: reads the root and scans it. */
  method ScanTree(bitmap: array<byte>, fs: Fs, agno: nat, root: nat, levels: nat)
    requires bitmap.Length == fs.blocks && TreeOK(fs, agno, root, levels)
    modifies bitmap
    ensures Cleared(old(bitmap[..]), bitmap[..], TreeSet(fs, agno, root, levels))
    decreases levels, 1
  {
    ScanBlock(bitmap, fs, agno, root, ViewAt(fs, BlockNo(fs, agno, root)), levels - 1);
  }

  /** `scanfuncBno`: the extents of a leaf, or the trees below an inner node. */
  method ScanBlock(bitmap: array<byte>, fs: Fs, agno: nat, ghost root: nat, block: View, level: nat)
    requires bitmap.Length == fs.blocks && TreeOK(fs, agno, root, level + 1) && block == ViewAt(fs, BlockNo(fs, agno, root))
    modifies bitmap
    ensures Cleared(old(bitmap[..]), bitmap[..], TreeSet(fs, agno, root, level + 1))
    decreases level + 1, 0
  {
    ghost var was := bitmap[..];
    if level == 0 {
      for i := 0 to |block.recs|
        invariant Cleared(was, bitmap[..], RecSet(fs, agno, block.recs, i))
      {
        var rec := block.recs[i];
        ghost var now := bitmap[..];
        AddToHist(bitmap, fs, agno, rec.start, rec.count);
        ClearedBoth(was, now, bitmap[..], RecSet(fs, agno, block.recs, i),
                    ExtentSet(fs, agno, rec), RecSet(fs, agno, block.recs, i + 1));
      }
      assert RecSet(fs, agno, block.recs, |block.recs|) == TreeSet(fs, agno, root, 1);
      return;
    }
    for i := 0 to |block.ptrs|
      invariant Cleared(was, bitmap[..], PtrSet(fs, agno, block.ptrs, level, i))
    {
      ghost var now := bitmap[..];
      ScanTree(bitmap, fs, agno, block.ptrs[i], level);
      OneMorePtr(fs, agno, block.ptrs, level, i);
      ClearedBoth(was, now, bitmap[..], PtrSet(fs, agno, block.ptrs, level, i),
                  TreeSet(fs, agno, block.ptrs[i], level), PtrSet(fs, agno, block.ptrs, level, i + 1));
    }
    AllPtrs(fs, agno, root, level);
  }

  ghost predicate InRecs(fs: Fs, agno: nat, recs: seq<Rec>, k: nat, b: nat)
    requires k <= |recs|
  {
    exists i :: 0 <= i < k && InExtent(fs, agno, recs[i], b)
  }

  ghost predicate InPtrs(fs: Fs, agno: nat, ptrs: seq<nat>, levels: nat, k: nat, b: nat)
    requires k <= |ptrs|
  {
    exists i :: 0 <= i < k && InTree(fs, agno, ptrs[i], levels, b)
  }

  lemma {:induction false} OneMorePtr(fs: Fs, agno: nat, ptrs: seq<nat>, levels: nat, k: nat)
    requires k < |ptrs|
    ensures forall b :: InPtrs(fs, agno, ptrs, levels, k + 1, b) <==> InPtrs(fs, agno, ptrs, levels, k, b) || InTree(fs, agno, ptrs[k], levels, b)
  {
    hide InTree;
  }

  lemma {:induction false} AllPtrs(fs: Fs, agno: nat, root: nat, level: nat)
    requires level > 0
    ensures var ptrs := ViewAt(fs, BlockNo(fs, agno, root)).ptrs;
            PtrSet(fs, agno, ptrs, level, |ptrs|) == TreeSet(fs, agno, root, level + 1)
  {
  }

  // ----- the bitmap ---------------------------------------------------------------------------------

  /** Bits set in four. */
  const BITS: seq<nat> := [0, 1, 1, 2, 1, 2, 2, 3, 1, 2, 2, 3, 2, 3, 3, 4]

  lemma {:induction false} BitsAre(x: nat)
    requires x < 16
    ensures |BITS| == 16 && BITS[x] == x % 2 + x / 2 % 2 + x / 4 % 2 + x / 8
  {
  }

  function Kept(bitmap: seq<byte>): (n: nat) {
    if bitmap == [] then 0 else Kept(bitmap[..|bitmap| - 1]) + (if bitmap[|bitmap| - 1] != 0 then 1 else 0)
  }

  ghost predicate FreeIn(fs: Fs, k: nat, b: nat)
    requires k <= |fs.agfs|
  {
    exists g :: 0 <= g < k && IsFree(fs, fs.agfs[g], b)
  }

  /** One allocation group. */
  method ScanGroup(bitmap: array<byte>, fs: Fs, agf: Agf)
    requires bitmap.Length == fs.blocks && GroupOK(fs, agf)
    modifies bitmap
    ensures Cleared(old(bitmap[..]), bitmap[..], GroupSet(fs, agf))
  {
    hide InList, InTree, ListOK, TreeOK;
    ScanFreelist(bitmap, fs, agf);
    ghost var now := bitmap[..];
    ScanTree(bitmap, fs, agf.seqno, agf.root, agf.levels);
    ClearedBoth(old(bitmap[..]), now, bitmap[..], ListSet(fs, agf),
                TreeSet(fs, agf.seqno, agf.root, agf.levels), GroupSet(fs, agf));
  }

  /** Counts the bits of a bitmap whose bytes are all or nothing. */
  method CountUsed(bitmap: array<byte>) returns (used: nat)
    requires forall b :: 0 <= b < bitmap.Length ==> bitmap[b] == 0 || bitmap[b] == FULL
    ensures used == 8 * Kept(bitmap[..])
  {
    used := 0;
    for i := 0 to bitmap.Length
      invariant used == 8 * Kept(bitmap[..i])
    {
      var x := bitmap[i];
      used := used + BITS[x / 16] + BITS[x % 16];
      assert bitmap[..i + 1][..i] == bitmap[..i];
    }
    assert bitmap[..] == bitmap[..bitmap.Length];
  }

  ghost predicate HasMagic(fs: Fs) {
    forall g :: 0 <= g < |fs.agfs| ==> fs.agfs[g].magic
  }

  /** The sectors in use by the superblock's own count, in 64 bits. */
  function Claimed(fs: Fs): (n: nat) {
    ((fs.blocks - fs.fdblocks) * 8) % 0x1_0000_0000_0000_0000
  }

  /** Eight sectors for each block that is not free; with more free blocks than there are, more sectors than fit any disk. */
  lemma {:induction false} ClaimedIs(fs: Fs)
    requires fs.blocks < 0x1000_0000_0000_0000 && fs.fdblocks < 0x1000_0000_0000_0000
    ensures if fs.fdblocks <= fs.blocks then Claimed(fs) == 8 * (fs.blocks - fs.fdblocks) else Claimed(fs) >= 0x8000_0000_0000_0000
  {
    var x := (fs.blocks - fs.fdblocks) * 8;
    DivModUnique(x, 0x1_0000_0000_0000_0000, if x >= 0 then 0 else -1, if x >= 0 then x else x + 0x1_0000_0000_0000_0000);
  }

  /**
    `readsb`: a block's byte is zero exactly if the block is on a free list or in a leaf extent of some
    group, all others are full, and the count is of the sectors kept.  Fewer than the superblock claims are
    an error, more are not.
   */
  method ReadSuperblock(fs: Fs) returns (ok: bool, bitmap: array<byte>, used: nat)
    requires forall g :: 0 <= g < |fs.agfs| ==> GroupOK(fs, fs.agfs[g])
    ensures fresh(bitmap) && bitmap.Length == fs.blocks
    ensures ok <==> HasMagic(fs) && Kept(bitmap[..]) * 8 >= Claimed(fs)
    ensures HasMagic(fs) ==> forall b: nat :: b < fs.blocks ==> bitmap[b] == if FreeIn(fs, |fs.agfs|, b) then 0 else FULL
    ensures HasMagic(fs) ==> used == 8 * Kept(bitmap[..])
  {
    hide IsFree, GroupOK;
    bitmap := new byte[fs.blocks](_ => FULL);
    used := 0;
    ghost var full := bitmap[..];
    for i := 0 to |fs.agfs|
      invariant bitmap.Length == fs.blocks && fresh(bitmap)
      invariant forall g :: 0 <= g < i ==> fs.agfs[g].magic
      invariant Cleared(full, bitmap[..], FreeSet(fs, i))
    {
      var agf := fs.agfs[i];
      if !agf.magic {
        ok := false;
        return;
      }
      ghost var now := bitmap[..];
      ScanGroup(bitmap, fs, agf);
      ClearedBoth(full, now, bitmap[..], FreeSet(fs, i), GroupSet(fs, agf), FreeSet(fs, i + 1));
    }
    forall b: nat | b < fs.blocks
      ensures bitmap[b] == if FreeIn(fs, |fs.agfs|, b) then 0 else FULL
    {
      assert bitmap[..][b] == if b in FreeSet(fs, |fs.agfs|) then 0 else full[b];
    }
    used := CountUsed(bitmap);
    ok := used == Claimed(fs) || used > Claimed(fs);
  }

  // ----- an example -----------------------------------------------------------------------------------

  /** The free list of the first group goes round from its last place to its first. */
  function ExampleList(): (l: seq<nat>)
    ensures |l| == 128 && l[127] == 7 && l[0] == 9
  {
    seq(128, i => if i == 127 then 7 else if i == 0 then 9 else 50)
  }

  /** Two groups of 100 blocks; the root of the second group's tree, a leaf, is its block 2. */
  function ExampleFs(): (fs: Fs) {
    Fs(200, 200, 100, [Agf(true, 0, 2, 127, 0, 1, 1), Agf(true, 1, 0, 0, 0, 2, 1)],
       map[0 := ExampleList()], map[1 := View([], []), 2 := View([Rec(60, 9)], []), 102 := View([Rec(5, 1)], [])])
  }

  lemma {:induction false} FirstList(b: nat)
    ensures var fs := ExampleFs(); ListOK(fs, fs.agfs[0]) && (InList(fs, fs.agfs[0], b) <==> b == 7 || b == 9)
  {
    var fs := ExampleFs();
    var agf := fs.agfs[0];
    var list := ListAt(fs, 0);
    assert list == ExampleList();
    hide ExampleList, ListAt;
    forall i | 0 <= i < AGFL_SIZE
      ensures Between(127, 0, i) <==> i == 127 || i == 0
      ensures Listed(fs, 0, i, b) <==> b == list[i]
    {
    }
    hide Between, Listed;
    if b == 7 || b == 9 {
      var i := if b == 7 then 127 else 0;
      assert Between(127, 0, i) && Listed(fs, 0, i, b);
    }
  }

  lemma {:induction false} FirstTree(b: nat)
    ensures TreeOK(ExampleFs(), 0, 1, 1) && !InTree(ExampleFs(), 0, 1, 1, b)
  {
    var fs := ExampleFs();
    hide ExampleList;
    assert ViewAt(fs, BlockNo(fs, 0, 1)).recs == [];
    LeafIs(fs, 0, 1, b);
    hide InTree, TreeOK;
  }

  lemma {:induction false} LeafIs(fs: Fs, agno: nat, root: nat, b: nat)
    ensures var recs := ViewAt(fs, BlockNo(fs, agno, root)).recs;
            && (InTree(fs, agno, root, 1, b) <==> InRecs(fs, agno, recs, |recs|, b))
            && (TreeOK(fs, agno, root, 1) <==> forall i :: 0 <= i < |recs| ==> ExtentOK(fs, agno, recs[i]))
  {
  }

  lemma {:induction false} FirstGroup(b: nat)
    ensures var fs := ExampleFs(); GroupOK(fs, fs.agfs[0]) && (IsFree(fs, fs.agfs[0], b) <==> b == 7 || b == 9)
  {
    hide ExampleList, ListOK, TreeOK, InList, InTree;
    FirstList(b);
    FirstTree(b);
  }

  lemma {:induction false} SecondGroup(b: nat)
    ensures var fs := ExampleFs(); GroupOK(fs, fs.agfs[1]) && (IsFree(fs, fs.agfs[1], b) <==> b == 105)
  {
    var fs := ExampleFs();
    hide ExampleList;
    var recs := ViewAt(fs, BlockNo(fs, 1, 2)).recs;
    assert BlockNo(fs, 1, 2) == 102 && BlockNo(fs, 1, 5) == 105 && recs == [Rec(5, 1)];
    assert InExtent(fs, 1, recs[0], b) <==> b == 105;
    LeafIs(fs, 1, 2, b);
    hide InTree, TreeOK;
  }

  /** Free are blocks 7 and 9 of the first group and block 5 of the second. */
  method ScanExample() returns (ok: bool, bitmap: array<byte>)
    ensures ok && bitmap.Length == 200
    ensures forall b :: 0 <= b < 200 ==> bitmap[b] == if b == 7 || b == 9 || b == 105 then 0 else 255
  {
    var fs := ExampleFs();
    forall b: nat
      ensures IsFree(fs, fs.agfs[0], b) <==> b == 7 || b == 9
      ensures IsFree(fs, fs.agfs[1], b) <==> b == 105
    {
      FirstGroup(b);
      SecondGroup(b);
    }
    FirstGroup(0);
    SecondGroup(0);
    hide IsFree, GroupOK, ExampleList;
    var used;
    ok, bitmap, used := ReadSuperblock(fs);
    forall b: nat
      ensures FreeIn(fs, 2, b) <==> b == 7 || b == 9 || b == 105
    {
      assert IsFree(fs, fs.agfs[0], b) || IsFree(fs, fs.agfs[1], b) ==> FreeIn(fs, 2, b);
    }
  }
}
