/**
  `mmap_avail_at`: how much memory lies above an address, from descriptors in any order that may
  overlap.
 */
module MemoryMap {
  const WORDS: nat := 0x1_0000_0000_0000_0000
  const LIMIT: nat := 0xFFFF_FFFF

  type Word = x: nat | x < WORDS

  datatype Range = Range(ram: bool, base: Word, length: Word)

  /** Where a range ends, by the arithmetic of 64 bits. */
  function End(r: Range): (e: nat) {
    (r.base + r.length) % WORDS
  }

  /** The range covers the address, as the code sees it. */
  predicate Covers(r: Range, a: nat) {
    r.ram && r.base <= a < End(r)
  }

  ghost predicate Covered(map_: seq<Range>, a: nat) {
    exists i :: 0 <= i < |map_| && Covers(map_[i], a)
  }

  /** The address is in a range of memory. */
  ghost predicate InMemory(map_: seq<Range>, a: nat) {
    exists i :: 0 <= i < |map_| && map_[i].ram && map_[i].base <= a < map_[i].base + map_[i].length
  }

  /** A range of memory that reaches the end of the address space, where its end wraps. */
  predicate Wraps(r: Range) {
    r.ram && r.base + r.length >= WORDS
  }

  lemma {:induction false} EndIs(r: Range)
    ensures End(r) == if r.base + r.length < WORDS then r.base + r.length else r.base + r.length - WORDS
  {
  }

  /** The code sees the memory as it is exactly if no range wraps. */
  lemma {:induction false} CoveredIsMemory(map_: seq<Range>)
    ensures (forall a: Word :: Covered(map_, a) <==> InMemory(map_, a)) <==> forall i :: 0 <= i < |map_| ==> !Wraps(map_[i])
  {
    hide End;
    forall r: Range
      ensures End(r) == if r.base + r.length < WORDS then r.base + r.length else r.base + r.length - WORDS
    {
      EndIs(r);
    }
    if i :| 0 <= i < |map_| && Wraps(map_[i]) {
      var last: Word := WORDS - 1;
      assert InMemory(map_, last) && !Covered(map_, last);
    } else {
      forall a: Word
        ensures Covered(map_, a) <==> InMemory(map_, a)
      {
        if i :| 0 <= i < |map_| && map_[i].ram && map_[i].base <= a < map_[i].base + map_[i].length {
          assert !Wraps(map_[i]) && Covers(map_[i], a);
        }
      }
    }
  }

  /** All memory from one megabyte on, in one range: none is found. */
  method WrapExample() returns (n: nat)
    ensures n == 0 && InMemory([Range(true, 0x10_0000, WORDS - 0x10_0000)], 0x10_0000)
  {
    var r := Range(true, 0x10_0000, WORDS - 0x10_0000);
    assert [r][0] == r && End(r) == 0;
    assert !Covered([r], 0x10_0000);
    n := AvailAt([r], 0x10_0000);
  }

  /** How many ranges of memory end above `top`. */
  function EndingAbove(map_: seq<Range>, top: nat): (n: nat) {
    if map_ == [] then 0
    else EndingAbove(map_[1..], top) + (if map_[0].ram && End(map_[0]) > top then 1 else 0)
  }

  lemma {:induction false} EndingAboveMonotone(map_: seq<Range>, top: nat, top': nat)
    requires top <= top'
    ensures EndingAbove(map_, top') <= EndingAbove(map_, top)
    decreases |map_|
  {
    if map_ != [] {
      EndingAboveMonotone(map_[1..], top, top');
    }
  }

  /** Raising `top` to the end of a range leaves fewer ranges ending above it. */
  lemma {:induction false} EndingAboveDrops(map_: seq<Range>, i: nat, top: nat, top': nat)
    requires i < |map_| && map_[i].ram && top < End(map_[i]) <= top'
    ensures EndingAbove(map_, top') < EndingAbove(map_, top)
    decreases |map_|
  {
    if i == 0 {
      EndingAboveMonotone(map_[1..], top, top');
    } else {
      EndingAboveDrops(map_[1..], i - 1, top, top');
    }
  }

  /** `top` before it is cut to 32 bits: the least address from `bottom` on that is not memory. */
  method Top(map_: seq<Range>, bottom: nat) returns (top: nat)
    ensures bottom <= top && !Covered(map_, top)
    ensures forall a :: bottom <= a < top ==> Covered(map_, a)
  {
    top := bottom;
    var cont := true;
    while cont
      invariant bottom <= top && (forall a :: bottom <= a < top ==> Covered(map_, a))
      invariant !cont ==> !Covered(map_, top)
      decreases EndingAbove(map_, top), cont
    {
      top, cont := Pass(map_, bottom, top);
    }
  }

  /** One pass over the descriptors. */
  method Pass(map_: seq<Range>, ghost bottom: nat, top: nat) returns (top': nat, cont: bool)
    requires bottom <= top && (forall a :: bottom <= a < top ==> Covered(map_, a))
    ensures top <= top' && (forall a :: bottom <= a < top' ==> Covered(map_, a))
    ensures if cont then EndingAbove(map_, top') < EndingAbove(map_, top) else top' == top && !Covered(map_, top)
  {
    top', cont := top, false;
    for i := 0 to |map_|
      invariant top <= top' && (forall a :: bottom <= a < top' ==> Covered(map_, a))
      invariant if cont then EndingAbove(map_, top') < EndingAbove(map_, top) else top' == top
      invariant !cont ==> forall j :: 0 <= j < i ==> !Covers(map_[j], top)
    {
      var r := map_[i];
      if r.ram && r.base <= top' && End(r) > top' {
        EndingAboveDrops(map_, i, top', End(r));
        forall a | bottom <= a < End(r)
          ensures Covered(map_, a)
        {
          if a >= top' {
            assert Covers(map_[i], a);
          }
        }
        top', cont := End(r), true;
      }
    }
  }

  /** `mmap_avail_at`, for an address of 32 bits: the length of the memory that begins there, within 32 bits. */
  method AvailAt(map_: seq<Range>, bottom: nat) returns (n: nat)
    requires bottom <= LIMIT
    ensures bottom + n <= LIMIT && (forall a :: bottom <= a < bottom + n ==> Covered(map_, a))
    ensures bottom + n < LIMIT ==> !Covered(map_, bottom + n)
    ensures (forall i :: 0 <= i < |map_| ==> !Wraps(map_[i])) ==>
              (forall a :: bottom <= a < bottom + n ==> InMemory(map_, a)) && (bottom + n < LIMIT ==> !InMemory(map_, bottom + n))
  {
    CoveredIsMemory(map_);
    var top := Top(map_, bottom);
    n := (if top > LIMIT then LIMIT else top) - bottom;
  }
}
