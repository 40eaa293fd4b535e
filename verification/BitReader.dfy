/**
  The bit buffer: the input macros of `infutil.h` and `inffast.c`.

  The buffer is a 32-bit word, first bit of the stream lowest.  It stands for a
  position in the input: the next unread bit.  Bits above the `k` valid ones need
  not be zero.  Bytes that were pushed back leave theirs behind; `Valid` says that
  such bits agree with the input, so that reading the bytes again changes nothing.
 */
module BitReader {
  import opened Bits
  import opened ZStatus

  const WORD: nat := 32

  /** `b |= byte << k` on a 32-bit word. */
  function OrByte(b: seq<bool>, x: byte, k: nat): (r: seq<bool>)
    requires |b| == WORD
    ensures |r| == WORD
  {
    seq(WORD, i requires 0 <= i < WORD => b[i] || (k <= i < k + 8 && ByteBit(x, i - k)))
  }

  /** `b >>= j` on a 32-bit word. */
  function ShiftRight(b: seq<bool>, j: nat): (r: seq<bool>)
    requires |b| == WORD && j <= WORD
    ensures |r| == WORD
  {
    b[j..] + Zeros(j)
  }

  /** The low `k` bits are the input's at `pos`; higher ones may only be set where the input's are. */
  ghost predicate Holds(input: seq<byte>, b: seq<bool>, pos: nat, k: nat) {
    && |b| == WORD && k <= WORD
    && (forall i :: 0 <= i < k ==> b[i] == StreamBit(input, pos + i))
    && (forall i :: k <= i < WORD && b[i] ==> StreamBit(input, pos + i))
  }

  lemma {:induction false} OrByteHolds(input: seq<byte>, b: seq<bool>, pos: nat, k: nat, p: nat)
    requires Holds(input, b, pos, k) && k + 8 <= WORD && pos + k == 8 * p && p < |input|
    ensures Holds(input, OrByte(b, input[p], k), pos, k + 8)
  {
    var r := OrByte(b, input[p], k);
    forall i | k <= i < k + 8
      ensures r[i] == StreamBit(input, pos + i)
    {
      assert pos + i == 8 * p + (i - k);
      assert StreamBit(input, pos + i) == ByteBit(input[p], i - k);
    }
  }

  lemma {:induction false} ShiftHolds(input: seq<byte>, b: seq<bool>, pos: nat, k: nat, j: nat)
    requires Holds(input, b, pos, k) && j <= k
    ensures Holds(input, ShiftRight(b, j), pos + j, k - j)
  {
    var r := ShiftRight(b, j);
    forall i | 0 <= i < k - j
      ensures r[i] == StreamBit(input, pos + j + i)
    {
      assert r[i] == b[i + j];
      assert pos + j + i == pos + (i + j);
    }
    forall i | k - j <= i < WORD && r[i]
      ensures StreamBit(input, pos + j + i)
    {
      assert r[i] == b[i + j];
      assert pos + j + i == pos + (i + j);
    }
  }

  lemma {:induction false} FewerHold(input: seq<byte>, b: seq<bool>, pos: nat, k: nat, k': nat)
    requires Holds(input, b, pos, k) && k' <= k
    ensures Holds(input, b, pos, k')
  {
  }

  lemma {:induction false} LowBits(input: seq<byte>, b: seq<bool>, pos: nat, k: nat, j: nat)
    requires Holds(input, b, pos, k) && j <= k
    ensures b[..j] == Peek(input, pos, j)
  {
  }

  class BitReader {
    const input: seq<byte>
    var b: seq<bool>
    var k: nat
    var p: nat
    var n: nat

    ghost predicate Valid()
      reads this
    {
      && p + n <= |input| && k <= 8 * p
      && Holds(input, b, 8 * p - k, k)
    }

    /** The position of the next unread bit. */
    ghost function Pos(): (r: nat)
      requires k <= 8 * p
      reads this
    {
      8 * p - k
    }

    constructor (input: seq<byte>)
      ensures Valid() && Pos() == 0 && k == 0 && n == 0 && p == 0 && this.input == input
    {
      this.input := input;
      b, k, p, n := Zeros(WORD), 0, 0, 0;
    }

    /** The caller makes `more` further bytes available. */
    method Provide(more: nat)
      requires Valid() && p + n + more <= |input|
      modifies this`n
      ensures Valid() && n == old(n) + more
    {
      n := n + more;
    }

    /** NEXTBYTE, or-ed into the buffer. */
    method Fetch()
      requires Valid() && n > 0 && k + 8 <= WORD
      modifies this`b, this`k, this`p, this`n
      ensures Valid() && Pos() == old(Pos())
      ensures k == old(k) + 8 && p == old(p) + 1 && n == old(n) - 1
    {
      OrByteHolds(input, b, 8 * p - k, k, p);
      hide Holds, OrByte;
      b := OrByte(b, input[p], k);
      k, p, n := k + 8, p + 1, n - 1;
    }

    /** NEEDBITS and GRABBITS: at least `j` bits in the buffer, or the input has run out. */
    method NeedBits(j: nat) returns (ok: bool)
      requires Valid() && (j <= WORD - 7 || (j == WORD && k % 8 == 0))
      modifies this`b, this`k, this`p, this`n
      ensures Valid() && Pos() == old(Pos()) && p + n == old(p + n) && k % 8 == old(k) % 8
      ensures ok <==> j <= k
      ensures n <= old(n)
      ensures !ok ==> n == 0
      ensures old(k) >= j ==> k == old(k)
      ensures old(k) < j ==> old(k) <= k <= j + 7
      ensures ok && old(k) < j ==> 8 * (old(n) - n) == k - old(k)
    {
      hide Holds;
      while k < j
        invariant Valid() && Pos() == old(Pos()) && p + n == old(p + n) && k % 8 == old(k) % 8
        invariant old(k) >= j ==> k == old(k)
        invariant old(k) < j ==> old(k) <= k <= j + 7
        invariant 8 * (old(n) - n) == k - old(k) && n <= old(n)
        decreases n
      {
        if n == 0 {
          return false;
        }
        Fetch();
      }
      return true;
    }

    /** DUMPBITS. */
    method DumpBits(j: nat)
      requires Valid() && j <= k
      modifies this`b, this`k
      ensures Valid() && k == old(k) - j && Pos() == old(Pos()) + j
    {
      ShiftHolds(input, b, 8 * p - k, k, j);
      hide Holds, ShiftRight;
      assert 8 * p - k + j == 8 * p - (k - j);
      b, k := ShiftRight(b, j), k - j;
    }

    /** The low `j` bits of the buffer. */
    method Low(j: nat) returns (v: nat)
      requires Valid() && j <= k
      ensures v == Lsb(Peek(input, Pos(), j)) == Field(input, Pos(), j)
    {
      LowBits(input, b, 8 * p - k, k, j);
      v := Lsb(b[..j]);
    }

    /** Hands back whole unused bytes, at most `limit` of them: UNGRAB, and the push-back of WASH. */
    method Ungrab(limit: nat)
      requires Valid()
      modifies this`k, this`p, this`n
      ensures Valid() && Pos() == old(Pos()) && p + n == old(p + n)
      ensures var c := if old(k) / 8 < limit then old(k) / 8 else limit; k == old(k) - 8 * c && n == old(n) + c
    {
      hide Holds;
      var c := if k / 8 < limit then k / 8 else limit;
      FewerHold(input, b, 8 * p - k, k, k - 8 * c);
      assert 8 * p - k == 8 * (p - c) - (k - 8 * c);
      n, p, k := n + c, p - c, k - 8 * c;
    }

    /** Takes bytes straight from the input, past an empty buffer. */
    method TakeBytes(t: nat) returns (bytes: seq<byte>)
      requires Valid() && k == 0 && t <= n && b == Zeros(WORD)
      modifies this`p, this`n
      ensures Valid() && p == old(p) + t && n == old(n) - t
      ensures bytes == input[old(p)..p]
    {
      bytes := input[p..p + t];
      p, n := p + t, n - t;
    }

    /** Drops everything in the buffer. */
    method DropAll()
      requires Valid()
      modifies this`b, this`k
      ensures Valid() && k == 0 && b == Zeros(WORD) && Pos() == old(Pos()) + old(k)
    {
      b, k := Zeros(WORD), 0;
    }
  }
}
