/**
  The Adler-32 checksum of section 2.2 of RFC 1950, and the loop that computes it
  with the modulo deferred over runs of NMAX bytes.
 */
module Adler32 {
  import opened Bits

  const BASE: nat := 65521
  const NMAX: nat := 5552
  const WORD: nat := 0x1_0000_0000

  // ----- the checksum, byte by byte --------------------------------------------

  datatype Sums = Sums(s1: nat, s2: nat)

  function Step(s: Sums, x: byte): (r: Sums)
    ensures r.s1 < BASE && r.s2 < BASE
  {
    var s1 := (s.s1 + x) % BASE;
    Sums(s1, (s.s2 + s1) % BASE)
  }

  function Fold(s: Sums, buf: seq<byte>): (r: Sums) {
    if buf == [] then s else Step(Fold(s, buf[..|buf| - 1]), buf[|buf| - 1])
  }

  function Pack(s: Sums): (r: nat) {
    s.s2 * 0x10000 + s.s1
  }

  function Unpack(adler: nat): (s: Sums)
    ensures s.s1 < 0x10000 && s.s2 < 0x10000
  {
    Sums(adler % 0x10000, (adler / 0x10000) % 0x10000)
  }

  /** The checksum `adler` carried on over `buf`. */
  function Update(adler: nat, buf: seq<byte>): (r: nat) {
    Pack(Fold(Unpack(adler), buf))
  }

  /** The checksum of a whole stream. */
  function Checksum(buf: seq<byte>): (r: nat) {
    Update(1, buf)
  }

  lemma {:induction false} FoldConcat(s: Sums, x: seq<byte>, y: seq<byte>)
    ensures Fold(s, x + y) == Fold(Fold(s, x), y)
  {
    if y == [] {
      assert x + y == x;
    } else {
      var n := |y| - 1;
      FoldConcat(s, x, y[..n]);
      assert (x + y)[..|x| + n] == x + y[..n];
    }
  }

  lemma {:induction false} FoldBound(s: Sums, buf: seq<byte>)
    requires s.s1 < 0x10000 && s.s2 < 0x10000
    ensures Fold(s, buf).s1 < 0x10000 && Fold(s, buf).s2 < 0x10000
  {
  }

  /** Checksumming x and then y is checksumming their concatenation. */
  lemma {:induction false} UpdateConcat(adler: nat, x: seq<byte>, y: seq<byte>)
    ensures Update(Update(adler, x), y) == Update(adler, x + y)
  {
    FoldConcat(Unpack(adler), x, y);
    FoldBound(Unpack(adler), x);
    var s := Fold(Unpack(adler), x);
    UnpackPack(s);
  }

  lemma {:induction false} UnpackPack(s: Sums)
    requires s.s1 < 0x10000 && s.s2 < 0x10000
    ensures Unpack(Pack(s)) == s
  {
    DivModUnique(Pack(s), 0x10000, s.s2, s.s1);
    DivModUnique(s.s2, 0x10000, 0, s.s2);
  }

  // ----- the checksum in closed form -----------------------------------------------

  function Sum(buf: seq<byte>): (r: nat) {
    if buf == [] then 0 else buf[0] + Sum(buf[1..])
  }

  /** Every byte as often as there are bytes from it on. */
  function Weighted(buf: seq<byte>): (r: nat) {
    if buf == [] then 0 else |buf| * buf[0] + Weighted(buf[1..])
  }

  lemma {:induction false} SumAppend(buf: seq<byte>, x: byte)
    ensures Sum(buf + [x]) == Sum(buf) + x && Weighted(buf + [x]) == Weighted(buf) + Sum(buf) + x
  {
    if buf != [] {
      var n: nat := |buf|;
      SumAppend(buf[1..], x);
      assert (buf + [x])[1..] == buf[1..] + [x];
      MulDistributes(n, 1, buf[0]);
    }
  }

  lemma {:induction false} PlainClosed(buf: seq<byte>)
    ensures Plain(Sums(1, 0), buf) == Sums(1 + Sum(buf), |buf| + Weighted(buf))
  {
    if buf != [] {
      var n := |buf| - 1;
      PlainClosed(buf[..n]);
      SumAppend(buf[..n], buf[n]);
      assert buf == buf[..n] + [buf[n]];
    }
  }

  lemma {:induction false} FoldFromOne(buf: seq<byte>)
    ensures Fold(Sums(1, 0), buf) == Sums((1 + Sum(buf)) % BASE, (|buf| + Weighted(buf)) % BASE)
  {
    if buf == [] {
      assert 1 % BASE == 1 && 0 % BASE == 0;
    } else {
      hide Plain, Fold;
      PlainClosed(buf);
      PlainIsFold(Sums(1, 0), buf);
    }
  }

  /** Section 2.2 of RFC 1950: the low half is one more than the sum of the bytes, the high half the sum of these sums. */
  lemma {:induction false} ChecksumIs(buf: seq<byte>)
    ensures Checksum(buf) % 0x10000 == (1 + Sum(buf)) % BASE
    ensures Checksum(buf) / 0x10000 == (|buf| + Weighted(buf)) % BASE
  {
    var s := Sums(1, 0);
    assert Unpack(1) == s;
    hide Fold, Unpack;
    FoldFromOne(buf);
    FoldBound(s, buf);
    var f := Fold(s, buf);
    DivModUnique(Pack(f), 0x10000, f.s2, f.s1);
  }

  // ----- the base --------------------------------------------------------------------

  predicate Prime(n: nat) {
    n >= 2 && forall d :: 2 <= d < n ==> n % d != 0
  }

  lemma {:induction false} NoSmallDivisor()
    ensures forall d :: 2 <= d < 256 ==> BASE % d != 0
  {
  }

  /** The base is the greatest prime below 65536. */
  lemma {:induction false} BaseIsPrime()
    ensures Prime(BASE) && forall m: nat :: BASE < m < 0x10000 ==> !Prime(m)
  {
    NoSmallDivisor();
    forall d | 2 <= d < BASE
      ensures BASE % d != 0
    {
      if d >= 256 && BASE % d == 0 {
        var q := BASE / d;
        assert BASE == q * d;
        if q >= 256 {
          MulOrder(256, q, d);
        }
        DivModUnique(BASE, q, d, 0);
      }
    }
    forall m: nat | BASE < m < 0x10000
      ensures !Prime(m)
    {
      assert m % 2 == 0 || m % 3 == 0 || m % 5 == 0 || m % 7 == 0 || m % 13 == 0 || m % 19 == 0;
    }
  }

  // ----- the sums without modulo --------------------------------------------------

  function Plain(s: Sums, buf: seq<byte>): (r: Sums) {
    if buf == [] then s
    else
      var p := Plain(s, buf[..|buf| - 1]);
      Sums(p.s1 + buf[|buf| - 1], p.s2 + p.s1 + buf[|buf| - 1])
  }

  /** Reducing at the end comes to the same as reducing at every step. */
  lemma {:induction false} PlainIsFold(s: Sums, buf: seq<byte>)
    ensures Plain(s, buf).s1 % BASE == Fold(s, buf).s1 % BASE && Plain(s, buf).s2 % BASE == Fold(s, buf).s2 % BASE
    ensures buf != [] ==> Plain(s, buf).s1 % BASE == Fold(s, buf).s1 && Plain(s, buf).s2 % BASE == Fold(s, buf).s2
  {
    if buf != [] {
      var n := |buf| - 1;
      PlainIsFold(s, buf[..n]);
      StepMod(Plain(s, buf[..n]), Fold(s, buf[..n]), buf[n]);
    }
  }

  lemma {:induction false} StepMod(p: Sums, f: Sums, x: byte)
    requires p.s1 % BASE == f.s1 % BASE && p.s2 % BASE == f.s2 % BASE
    ensures (p.s1 + x) % BASE == Step(f, x).s1 == Step(f, x).s1 % BASE
    ensures (p.s2 + p.s1 + x) % BASE == Step(f, x).s2 == Step(f, x).s2 % BASE
  {
    AddMod(p.s1, f.s1, x);
    ModMod(f.s1 + x);
    AddMod(p.s2, f.s2, p.s1 + x);
    AddMod(p.s1 + x, (f.s1 + x) % BASE, f.s2);
    ModMod(f.s2 + (f.s1 + x) % BASE);
  }

  lemma {:induction false} ModMod(a: nat)
    ensures a % BASE % BASE == a % BASE
  {
  }

  lemma {:induction false} AddMod(a: nat, b: nat, c: nat)
    requires a % BASE == b % BASE
    ensures (a + c) % BASE == (b + c) % BASE
  {
  }

  /** After n bytes, from halves of a 32-bit checksum: bounds that stay within 32 bits up to NMAX. */
  lemma {:induction false} PlainBound(s: Sums, buf: seq<byte>)
    requires s.s1 < 0x10000 && s.s2 < 0x10000
    ensures var n := |buf|; var p := Plain(s, buf);
            p.s1 <= 0xFFFF + 255 * n && 2 * p.s2 <= 2 * 0xFFFF * (n + 1) + 255 * n * (n + 1)
  {
    if buf != [] {
      PlainBound(s, buf[..|buf| - 1]);
      Triangle(|buf|);
    }
  }

  lemma {:induction false} Triangle(n: nat)
    ensures n * (n + 1) == (n - 1) * n + 2 * n
    ensures 255 * n * (n + 1) == 255 * (n * (n + 1)) && 255 * (n - 1) * n == 255 * ((n - 1) * n)
  {
  }

  lemma {:induction false} PlainFits(s: Sums, buf: seq<byte>)
    requires s.s1 < 0x10000 && s.s2 < 0x10000 && |buf| <= NMAX
    ensures Plain(s, buf).s1 < WORD && Plain(s, buf).s2 < WORD
  {
    PlainBound(s, buf);
    SquareBound(|buf|);
  }

  lemma {:induction false} SquareBound(n: nat)
    requires n <= NMAX
    ensures n * (n + 1) <= NMAX * (NMAX + 1)
  {
    MulOrder(n, NMAX, n + 1);
  }

  /** Adds the next byte to both sums. */
  method AddByte(s1: nat, s2: nat, buf: seq<byte>, i: nat, ghost from: Sums, ghost low: nat) returns (s1': nat, s2': nat)
    requires low <= i < |buf| && i - low < NMAX && from.s1 < 0x10000 && from.s2 < 0x10000
    requires Sums(s1, s2) == Plain(from, buf[low..i])
    ensures Sums(s1', s2') == Plain(from, buf[low..i + 1])
    ensures s1 + buf[i] == s1' < WORD && s2 + s1' == s2' < WORD
  {
    assert buf[low..i + 1][..i - low] == buf[low..i];
    PlainFits(from, buf[low..i + 1]);
    s1' := s1 + buf[i];
    s2' := s2 + s1';
  }

  /**
    The checksum, reduced once per NMAX bytes.  Every sum formed on the way, as AddByte states,
    fits 32 bits.
   */
  method Compute(adler: nat, buf: seq<byte>) returns (r: nat)
    requires adler < WORD
    ensures r == Update(adler, buf)
  {
    var s1: nat, s2: nat := adler % 0x10000, (adler / 0x10000) % 0x10000;
    var i := 0;
    while i < |buf|
      invariant i <= |buf| && s1 < 0x10000 && s2 < 0x10000
      invariant Sums(s1, s2) == Fold(Unpack(adler), buf[..i])
    {
      var k := if |buf| - i < NMAX then |buf| - i else NMAX;
      s1, s2 := Run(s1, s2, buf, i, k);
      assert buf[..i + k] == buf[..i] + buf[i..i + k];
      FoldConcat(Unpack(adler), buf[..i], buf[i..i + k]);
      i := i + k;
    }
    assert buf[..i] == buf;
    r := s2 * 0x10000 + s1;
  }

  lemma {:induction false} PlainNothing(from: Sums, buf: seq<byte>, i: nat)
    requires i <= |buf|
    ensures Plain(from, buf[i..i]) == from
  {
  }

  /** One run of at most NMAX bytes, sixteen at a time and then singly, followed by the reduction. */
  method Run(s1: nat, s2: nat, buf: seq<byte>, i: nat, len: nat) returns (r1: nat, r2: nat)
    requires s1 < 0x10000 && s2 < 0x10000 && 0 < len <= NMAX && i + len <= |buf|
    ensures Sums(r1, r2) == Fold(Sums(s1, s2), buf[i..i + len]) && r1 < BASE && r2 < BASE
  {
    hide Plain, Fold;
    ghost var from := Sums(s1, s2);
    PlainNothing(from, buf, i);
    r1, r2 := s1, s2;
    var j, k := i, len;
    while k >= 16
      invariant i <= j && j + k == i + len
      invariant Sums(r1, r2) == Plain(from, buf[i..j])
    {
      for t := 0 to 16
        invariant Sums(r1, r2) == Plain(from, buf[i..j + t])
      {
        r1, r2 := AddByte(r1, r2, buf, j + t, from, i);
      }
      j, k := j + 16, k - 16;
    }
    while k > 0
      invariant i <= j && j + k == i + len
      invariant Sums(r1, r2) == Plain(from, buf[i..j])
    {
      r1, r2 := AddByte(r1, r2, buf, j, from, i);
      j, k := j + 1, k - 1;
    }
    PlainIsFold(from, buf[i..i + len]);
    r1, r2 := r1 % BASE, r2 % BASE;
  }
}
