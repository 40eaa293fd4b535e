/**
  Bits, in the two orders DEFLATE uses them.

  A bit string is kept in stream order: element 0 is the bit that arrives first.
  Read as an integer it has two values.  `Lsb` gives the first bit weight one: it
  is how extra bits, block headers and table indices are formed.  `Msb` gives the
  first bit the greatest weight: it is how RFC 1951 writes a Huffman code down.
 */
module Bits {

  type byte = x: int | 0 <= x < 256

  function Pow2(n: nat): (r: nat)
    ensures r > 0
  {
    if n == 0 then 1 else 2 * Pow2(n - 1)
  }

  lemma {:induction false} Pow2Add(a: nat, b: nat)
    ensures Pow2(a + b) == Pow2(a) * Pow2(b)
  {
    if a != 0 {
      Pow2Add(a - 1, b);
      assert Pow2(a + b) == 2 * Pow2(a - 1 + b);
    }
  }

  lemma {:induction false} Pow2Monotone(a: nat, b: nat)
    requires a <= b
    ensures Pow2(a) <= Pow2(b)
    ensures a < b ==> 2 * Pow2(a) <= Pow2(b)
    decreases b - a
  {
    if a + 1 < b {
      Pow2Monotone(a, b - 1);
    }
  }

  lemma {:induction false} SmallPowers()
    ensures Pow2(0) == 1 && Pow2(1) == 2 && Pow2(2) == 4 && Pow2(3) == 8 && Pow2(4) == 16
    ensures Pow2(5) == 32 && Pow2(6) == 64 && Pow2(7) == 128 && Pow2(8) == 256 && Pow2(9) == 512
    ensures Pow2(10) == 1024 && Pow2(11) == 2048 && Pow2(12) == 4096 && Pow2(13) == 8192
  {
    assert Pow2(4) == 16;
    assert Pow2(8) == 256;
    assert Pow2(11) == 2048;
  }

  function Weight(bit: bool): (r: nat) {
    if bit then 1 else 0
  }

  /** The value of a bit string whose first bit has weight one. */
  function Lsb(s: seq<bool>): (r: nat) {
    if s == [] then 0 else Weight(s[0]) + 2 * Lsb(s[1..])
  }

  /** The value of a bit string whose last bit has weight one. */
  function Msb(s: seq<bool>): (r: nat) {
    if s == [] then 0 else 2 * Msb(s[..|s| - 1]) + Weight(s[|s| - 1])
  }

  function Zeros(n: nat): (s: seq<bool>)
    ensures |s| == n
    ensures forall i :: 0 <= i < n ==> !s[i]
  {
    seq(n, i => false)
  }

  /** The `n`-bit string whose `Msb` value is `v`. */
  function FromMsb(v: nat, n: nat): (s: seq<bool>)
    ensures |s| == n
  {
    if n == 0 then [] else FromMsb(v / 2, n - 1) + [v % 2 == 1]
  }

  lemma {:induction false} LsbBound(s: seq<bool>)
    ensures Lsb(s) < Pow2(|s|)
  {
    if s != [] {
      LsbBound(s[1..]);
    }
  }

  lemma {:induction false} MsbBound(s: seq<bool>)
    ensures Msb(s) < Pow2(|s|)
  {
    if s != [] {
      MsbBound(s[..|s| - 1]);
    }
  }

  lemma {:induction false} LsbConcat(a: seq<bool>, b: seq<bool>)
    ensures Lsb(a + b) == Lsb(a) + Pow2(|a|) * Lsb(b)
  {
    if a == [] {
      assert a + b == b;
    } else {
      LsbConcat(a[1..], b);
      assert (a + b)[1..] == a[1..] + b;
      assert Pow2(|a|) * Lsb(b) == 2 * (Pow2(|a| - 1) * Lsb(b));
    }
  }

  lemma {:induction false} MsbConcat(a: seq<bool>, b: seq<bool>)
    ensures Msb(a + b) == Msb(a) * Pow2(|b|) + Msb(b)
  {
    if b == [] {
      assert a + b == a;
    } else {
      var n := |b| - 1;
      MsbConcat(a, b[..n]);
      assert (a + b)[..|a| + n] == a + b[..n];
      assert Msb(a) * Pow2(|b|) == 2 * (Msb(a) * Pow2(n));
    }
  }

  lemma {:induction false} LsbInjective(a: seq<bool>, b: seq<bool>)
    requires |a| == |b| && Lsb(a) == Lsb(b)
    ensures a == b
  {
    if a != [] {
      LsbInjective(a[1..], b[1..]);
      assert a == [a[0]] + a[1..] && b == [b[0]] + b[1..];
    }
  }

  lemma {:induction false} MsbInjective(a: seq<bool>, b: seq<bool>)
    requires |a| == |b| && Msb(a) == Msb(b)
    ensures a == b
  {
    if a != [] {
      var n := |a| - 1;
      MsbInjective(a[..n], b[..n]);
      assert a == a[..n] + [a[n]] && b == b[..n] + [b[n]];
    }
  }

  lemma {:induction false} LsbZeros(n: nat)
    ensures Lsb(Zeros(n)) == 0
  {
    if n != 0 {
      LsbZeros(n - 1);
      assert Zeros(n)[1..] == Zeros(n - 1);
    }
  }

  lemma {:induction false} MsbZeros(n: nat)
    ensures Msb(Zeros(n)) == 0
  {
    if n != 0 {
      MsbZeros(n - 1);
      assert Zeros(n)[..n - 1] == Zeros(n - 1);
    }
  }

  lemma {:induction false} MsbFromMsb(v: nat, n: nat)
    requires v < Pow2(n)
    ensures Msb(FromMsb(v, n)) == v
  {
    if n != 0 {
      MsbFromMsb(v / 2, n - 1);
      assert FromMsb(v, n)[..n - 1] == FromMsb(v / 2, n - 1);
    }
  }

  lemma {:induction false} FromMsbOfMsb(s: seq<bool>)
    ensures FromMsb(Msb(s), |s|) == s
  {
    MsbBound(s);
    MsbFromMsb(Msb(s), |s|);
    MsbInjective(FromMsb(Msb(s), |s|), s);
  }

  /** Masking the low `w` bits of a code, or shifting them out, splits its bit string. */
  lemma {:induction false} LsbSplit(s: seq<bool>, w: nat)
    requires w <= |s|
    ensures Lsb(s) % Pow2(w) == Lsb(s[..w])
    ensures Lsb(s) / Pow2(w) == Lsb(s[w..])
  {
    var lo, hi := s[..w], s[w..];
    assert s == lo + hi;
    LsbConcat(lo, hi);
    LsbBound(lo);
    DivModUnique(Lsb(s), Pow2(w), Lsb(hi), Lsb(lo));
  }

  lemma {:induction false} DivModUnique(x: int, d: int, q: int, r: int)
    requires d > 0 && 0 <= r < d && x == d * q + r
    ensures x / d == q && x % d == r
  {
    var gap := q - x / d;
    assert d * gap == x % d - r;
    if gap > 0 {
      MulAtLeast(gap, d);
    } else if gap < 0 {
      MulAtLeast(-gap, d);
    }
  }

  lemma {:induction false} MulAtLeast(n: int, d: int)
    requires n >= 1 && d >= 0
    ensures d * n >= d && n * d >= d
  {
  }

  // Linear facts about products, stated once so that no other proof multiplies.

  lemma {:induction false} MulDistributes(a: int, b: int, u: int)
    ensures (a + b) * u == a * u + b * u
    ensures (a - b) * u == a * u - b * u
  {
  }

  lemma {:induction false} MulDouble(c: int, u: int)
    ensures (2 * c) * u == c * (2 * u) == 2 * (c * u)
  {
  }

  lemma {:induction false} MulOrder(a: int, b: int, u: int)
    requires u > 0
    ensures a <= b <==> a * u <= b * u
    ensures a < b <==> a * u < b * u
    ensures a < b ==> a * u + u <= b * u
  {
    MulDistributes(b, a, u);
    if a < b {
      MulAtLeast(b - a, u);
    } else if b < a {
      MulDistributes(a, b, u);
      MulAtLeast(a - b, u);
    }
  }

  lemma {:induction false} DivMod(a: nat, n: nat)
    requires n > 0
    ensures a == (a / n) * n + a % n && 0 <= a % n < n && a / n >= 0
  {
  }

  function Least(a: nat, b: nat): (r: nat) {
    if a < b then a else b
  }

  // ----- positions in units of one size -----------------------------------------

  function UnitAt(size: nat, pos: nat): (u: nat)
    requires size > 0
  {
    DivMod(pos, size);
    pos / size
  }

  function OffsetAt(size: nat, pos: nat): (off: nat)
    requires size > 0
    ensures off < size
  {
    DivMod(pos, size);
    pos % size
  }

  /** A position is so many whole units and the offset in one. */
  lemma {:induction false} UnitIs(size: nat, pos: nat, u: nat, off: nat)
    requires size > 0 && off < size
    ensures UnitAt(size, pos) == u && OffsetAt(size, pos) == off <==> pos == u * size + off
  {
    DivMod(pos, size);
    if pos == u * size + off {
      DivModUnique(pos, size, u, off);
    }
  }

  lemma {:induction false} OffsetBound(size: nat, pos: nat)
    requires size > 0
    ensures OffsetAt(size, pos) < size
  {
  }

  lemma {:induction false} SameUnit(size: nat, pos: nat, i: nat)
    requires size > 0 && OffsetAt(size, pos) + i < size
    ensures UnitAt(size, pos + i) == UnitAt(size, pos) && OffsetAt(size, pos + i) == OffsetAt(size, pos) + i
  {
    DivMod(pos, size);
    DivModUnique(pos + i, size, pos / size, pos % size + i);
  }

  lemma {:induction false} NextUnit(size: nat, pos: nat, i: nat)
    requires size > 0 && OffsetAt(size, pos) + i == size
    ensures UnitAt(size, pos + i) == UnitAt(size, pos) + 1 && OffsetAt(size, pos + i) == 0
  {
    DivMod(pos, size);
    MulDistributes(pos / size, 1, size);
    DivModUnique(pos + i, size, pos / size + 1, 0);
  }

  lemma {:induction false} UnitOrder(size: nat, a: nat, b: nat)
    requires size > 0 && a <= b
    ensures UnitAt(size, a) <= UnitAt(size, b)
  {
    DivMod(a, size);
    DivMod(b, size);
    if a / size > b / size {
      MulOrder(b / size, a / size, size);
    }
  }

  // ----- the input as a stream of bits --------------------------------------

  predicate ByteBit(x: byte, i: nat)
    requires i < 8
  {
    (x / Pow2(i)) % 2 == 1
  }

  /** Bit `i` of the input, least significant bit of each byte first; past the end it reads as zero. */
  predicate StreamBit(input: seq<byte>, i: nat) {
    i / 8 < |input| && ByteBit(input[i / 8], i % 8)
  }

  function Peek(input: seq<byte>, pos: nat, n: nat): (s: seq<bool>)
    ensures |s| == n
    ensures forall i :: 0 <= i < n ==> s[i] == StreamBit(input, pos + i)
  {
    seq(n, i requires 0 <= i => StreamBit(input, pos + i))
  }

  /** The integer formed by the `n` bits at `pos`, first bit least significant. */
  function Field(input: seq<byte>, pos: nat, n: nat): (r: nat)
    ensures r < Pow2(n)
  {
    LsbBound(Peek(input, pos, n));
    Lsb(Peek(input, pos, n))
  }

  /** Bits that follow on others weigh more than all of them. */
  lemma {:induction false} FieldConcat(input: seq<byte>, pos: nat, m: nat, n: nat)
    ensures Field(input, pos, m + n) == Field(input, pos, m) + Pow2(m) * Field(input, pos + m, n)
  {
    hide StreamBit;
    assert Peek(input, pos, m + n) == Peek(input, pos, m) + Peek(input, pos + m, n);
    LsbConcat(Peek(input, pos, m), Peek(input, pos + m, n));
  }

  /** The bits of a byte from bit `i` on. */
  lemma {:induction false} ByteFrom(input: seq<byte>, p: nat, i: nat)
    requires p < |input| && i <= 8
    ensures Field(input, 8 * p + i, 8 - i) == input[p] / Pow2(i)
    decreases 8 - i
  {
    if i == 8 {
      Pow2Add(4, 4);
      assert Pow2(4) == 16;
    } else {
      ByteFrom(input, p, i + 1);
      DivModUnique(8 * p + i, 8, p, i);
      assert Pow2(1) == 2 && Pow2(i + 1) == 2 * Pow2(i);
      assert StreamBit(input, 8 * p + i) == ByteBit(input[p], i);
      OneBit(input, 8 * p + i);
      hide Field, StreamBit, Pow2;
      FieldConcat(input, 8 * p + i, 1, 7 - i);
      HalveQuotient(input[p], Pow2(i));
    }
  }

  lemma {:induction false} OneBit(input: seq<byte>, pos: nat)
    ensures Field(input, pos, 1) == Weight(StreamBit(input, pos))
  {
    hide StreamBit;
    assert Peek(input, pos, 1)[1..] == [];
  }

  lemma {:induction false} HalveQuotient(x: nat, d: nat)
    requires d > 0
    ensures x / d == (x / d) % 2 + 2 * (x / (2 * d))
  {
    var q := x / (2 * d);
    var r := x % (2 * d);
    DivMod(x, 2 * d);
    MulDouble(q, d);
    if r < d {
      DivModUnique(x, d, 2 * q, r);
    } else {
      MulDistributes(2 * q, 1, d);
      DivModUnique(x, d, 2 * q + 1, r - d);
    }
  }

  /** A byte arrives least significant bit first. */
  lemma {:induction false} ByteField(input: seq<byte>, p: nat)
    requires p < |input|
    ensures Field(input, 8 * p, 8) == input[p]
  {
    ByteFrom(input, p, 0);
  }

  /** Two bytes are a number of 16 bits, least significant byte first. */
  lemma {:induction false} TwoBytes(input: seq<byte>, p: nat)
    requires p + 2 <= |input|
    ensures var b0: nat, b1: nat := input[p], input[p + 1]; Field(input, 8 * p, 16) == b0 + 0x100 * b1
  {
    assert Pow2(4) == 16;
    Pow2Add(4, 4);
    hide Field, Pow2;
    ByteField(input, p);
    ByteField(input, p + 1);
    FieldConcat(input, 8 * p, 8, 8);
  }

  /** Four bytes are a number of 32 bits, least significant byte first. */
  lemma {:induction false} LittleEndian(input: seq<byte>, p: nat)
    requires p + 4 <= |input|
    ensures var b0: nat, b1: nat, b2: nat, b3: nat := input[p], input[p + 1], input[p + 2], input[p + 3];
            Field(input, 8 * p, 32) == b0 + 0x100 * b1 + 0x1_0000 * b2 + 0x100_0000 * b3
  {
    assert Pow2(4) == 16;
    Pow2Add(4, 4);
    Pow2Add(8, 8);
    hide Field, Pow2;
    TwoBytes(input, p);
    TwoBytes(input, p + 2);
    FieldConcat(input, 8 * p, 16, 16);
  }
}
