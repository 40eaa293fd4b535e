/**
  The circular output window: `infutil.c` and the output macros of `infutil.h`.

  Every byte written goes through the window, from which `Flush` hands it to the
  caller.  `hist` is what the window stands for: its contents when decoding began,
  then every byte written since.
 */
module Window {
  import opened Bits
  import opened ZStatus
  import Adler32
  import Deflate

  /** Window size: 2^15, the default of `inflateInit`. */
  const WSIZE: nat := 32768

  /** The index of the byte written `d` bytes before the write pointer. */
  function Back(q: nat, d: nat): (i: nat)
    requires q <= WSIZE && 1 <= d <= WSIZE
    ensures i < WSIZE
  {
    if d <= q then q - d else q + WSIZE - d
  }

  /** The window holds the last `WSIZE` bytes of the history. */
  ghost predicate Mirrors(buf: seq<byte>, q: nat, hist: seq<byte>) {
    && |buf| == WSIZE && q <= WSIZE && |hist| >= WSIZE
    && forall d :: 1 <= d <= WSIZE ==> buf[Back(q, d)] == hist[|hist| - d]
  }

  lemma {:induction false} BackStep(q: nat, d: nat)
    requires q < WSIZE && 1 <= d <= WSIZE
    ensures Back(q + 1, d) == if d == 1 then q else Back(q, d - 1)
    ensures d < WSIZE ==> Back(q, d) != q
  {
  }

  lemma {:induction false} MirrorsPut(buf: seq<byte>, q: nat, hist: seq<byte>, x: byte)
    requires Mirrors(buf, q, hist) && q < WSIZE
    ensures Mirrors(buf[q := x], q + 1, hist + [x])
  {
    var q', buf', hist' := q + 1, buf[q := x], hist + [x];
    forall d | 1 <= d <= WSIZE
      ensures buf'[Back(q', d)] == hist'[|hist'| - d]
    {
      BackStep(q, d);
      if d > 1 {
        BackStep(q, d - 1);
      }
    }
  }

  lemma {:induction false} MirrorsWrap(buf: seq<byte>, hist: seq<byte>)
    requires Mirrors(buf, WSIZE, hist)
    ensures Mirrors(buf, 0, hist)
  {
    forall d | 1 <= d <= WSIZE
      ensures buf[Back(0, d)] == hist[|hist| - d]
    {
      assert Back(0, d) == Back(WSIZE, d);
    }
  }

  /** The end of the window and its start are the same place to write. */
  predicate SamePlace(q: nat, q': nat) {
    q' == q || (q == WSIZE && q' == 0)
  }

  /** How many bytes are written but not yet delivered. */
  function Pending(read: nat, write: nat): (n: nat)
    requires read <= WSIZE
    ensures read < WSIZE && write <= WSIZE ==> n <= WSIZE
  {
    if read <= write then write - read else WSIZE - read + write
  }

  /** The pending bytes up to the end of the window, or to the write pointer, are the next of the history. */
  lemma {:induction false} PendingSlice(buf: seq<byte>, read: nat, write: nat, hist: seq<byte>, n: nat)
    requires Mirrors(buf, write, hist) && read <= WSIZE && read + n <= (if read <= write then write else WSIZE)
    requires |hist| >= Pending(read, write)
    ensures var from := |hist| - Pending(read, write);
            from + n <= |hist| && buf[read..read + n] == hist[from..from + n]
  {
    var from := |hist| - Pending(read, write);
    var a, b := buf[read..read + n], hist[from..from + n];
    forall i | 0 <= i < n
      ensures a[i] == b[i]
    {
      var d := |hist| - from - i;
      assert Back(write, d) == read + i;
      assert buf[Back(write, d)] == hist[|hist| - d];
    }
  }

  lemma {:induction false} FlushSlice(buf: seq<byte>, read: nat, write: nat, hist: seq<byte>, output: seq<byte>, n: nat)
    requires Mirrors(buf, write, hist) && read <= WSIZE && read + n <= (if read <= write then write else WSIZE)
    requires |hist| == WSIZE + |output| + Pending(read, write) && output == hist[WSIZE..WSIZE + |output|]
    ensures read + n <= |buf| && WSIZE + |output| + n <= |hist|
    ensures output + buf[read..read + n] == hist[WSIZE..WSIZE + |output + buf[read..read + n]|]
    ensures Pending(read + n, write) == Pending(read, write) - n
  {
    PendingSlice(buf, read, write, hist, n);
    var from := WSIZE + |output|;
    assert hist[WSIZE..from + n] == hist[WSIZE..from] + hist[from..from + n];
  }

  /** Carries the check on over the bytes about to be delivered. */
  method Carry(check: nat, ghost output: seq<byte>, chunk: seq<byte>) returns (r: nat)
    requires check == Adler32.Checksum(output)
    ensures r == Adler32.Checksum(output + chunk)
  {
    CheckFits(output);
    Adler32.UpdateConcat(1, output, chunk);
    r := Adler32.Compute(check, chunk);
  }

  class Window {
    const buf: array<byte>
    /** Whether a checksum of the delivered bytes is kept. */
    const checked: bool
    var read: nat
    var write: nat
    /** Bytes that can be written before the end of the window or the read pointer. */
    var room: nat
    var availOut: nat
    /** Everything delivered so far. */
    var output: seq<byte>
    var check: nat
    ghost var hist: seq<byte>

    ghost predicate Valid()
      reads this, buf
    {
      read < WSIZE && room == Room(read, write) && Carried()
    }

    /** Bytes written are bytes delivered, in order, and bytes pending; the check covers the delivered ones. */
    ghost predicate Carried()
      reads this, buf
    {
      && read <= WSIZE && write <= WSIZE
      && Mirrors(buf[..], write, hist)
      && |hist| == WSIZE + |output| + Pending(read, write)
      && output == hist[WSIZE..WSIZE + |output|]
      && (checked ==> check == Adler32.Checksum(output))
    }

    lemma HistoryIsLong()
      requires Carried()
      ensures |hist| >= WSIZE
    {
    }

    static function Room(read: nat, write: nat): (n: int) {
      if write < read then read - write - 1 else WSIZE - write
    }

    /** `inflate_blocks_new` and `inflate_blocks_reset`; the memory of the window is what it happens to be. */
    constructor (memory: seq<byte>, checked: bool)
      requires |memory| == WSIZE
      ensures Valid() && fresh(buf)
      ensures hist == memory && output == [] && availOut == 0 && this.checked == checked
    {
      buf := new byte[WSIZE](i requires 0 <= i < WSIZE => memory[i]);
      this.checked := checked;
      read, write, room := 0, 0, WSIZE;
      availOut, output, check := 0, [], 1;
      hist := memory;
      new;
      assert buf[..] == memory;
    }

    /** The caller's next output buffer. */
    method Provide(n: nat)
      requires Valid()
      modifies this`availOut
      ensures Valid() && availOut == n
    {
      availOut := n;
    }

    /** Delivers what lies together, as far as the output area takes it. */
    method FlushPart(r: Status) returns (r': Status)
      requires Carried()
      modifies this`read, this`availOut, this`output, this`check
      ensures Carried() && old(output) <= output
      ensures var n := Least((if old(read) <= write then write else WSIZE) - old(read), old(availOut));
              && read == old(read) + n && availOut == old(availOut) - n && |output| == |old(output)| + n
              && r' == if r == ZBufError && n > 0 then ZOk else r
    {
      hide Mirrors, Adler32.Checksum;
      var n := Least((if read <= write then write else WSIZE) - read, availOut);
      r' := if n > 0 && r == ZBufError then ZOk else r;
      FlushSlice(buf[..], read, write, hist, output, n);
      var chunk := buf[..][read..read + n];
      if checked {
        check := Carry(check, output, chunk);
      }
      output := output + chunk;
      read, availOut := read + n, availOut - n;
    }

    /** `inflate_flush`: copies as much as possible from the window to the output area. */
    method Flush(r: Status) returns (r': Status)
      requires Valid()
      modifies this
      ensures Valid() && hist == old(hist)
      ensures old(output) <= output
      ensures |output| - |old(output)| == Least(old(availOut), Pending(old(read), old(write)))
      ensures availOut == old(availOut) - (|output| - |old(output)|)
      ensures Pending(read, write) == 0 <==> read == write
      ensures SamePlace(old(write), write)
      ensures r' == if r == ZBufError && |output| > |old(output)| then ZOk else r
    {
      hide Mirrors, Adler32.Checksum;
      r' := FlushPart(r);
      if read == WSIZE {
        read := 0;
        if write == WSIZE {
          MirrorsWrap(buf[..], hist);
          write := 0;
        }
        r' := FlushPart(r');
      }
      room := Room(read, write);
    }

    /** WRAP: goes back to the start of the window, if the reader has left it. */
    method Wrap()
      requires Valid()
      modifies this`write, this`room
      ensures Valid() && Pending(read, write) == old(Pending(read, write)) && SamePlace(old(write), write)
      ensures old(room) > 0 ==> write == old(write) && room == old(room)
    {
      if write == WSIZE && read != 0 {
        MirrorsWrap(buf[..], hist);
        write := 0;
        room := Room(read, write);
      }
    }

    /** NEEDOUT: makes room for a byte, or reports that the caller must take output first. */
    method NeedOut(r: Status) returns (ok: bool, r': Status)
      requires Valid()
      modifies this
      ensures Valid() && hist == old(hist) && old(output) <= output
      ensures SamePlace(old(write), write)
      ensures ok <==> room > 0
      ensures r' == r || r' == ZOk
      ensures !ok ==> availOut == 0
    {
      r' := r;
      if room == 0 {
        Wrap();
        if room == 0 {
          r' := Flush(r');
          Wrap();
          if room == 0 {
            return false, r';
          }
        }
      }
      return true, ZOk;
    }

    /** OUTBYTE. */
    method OutByte(x: byte)
      requires Valid() && room > 0
      modifies this`write, this`room, this`hist, buf
      ensures Valid() && hist == old(hist) + [x]
      ensures write == old(write) + 1 && room == old(room) - 1
    {
      MirrorsPut(buf[..], write, hist, x);
      ghost var was := hist;
      buf[write] := x;
      write, room := write + 1, room - 1;
      hist := hist + [x];
      assert hist[WSIZE..WSIZE + |output|] == was[WSIZE..WSIZE + |output|];
    }

    /** Copies one byte from `from`, which is `dist` bytes behind the write pointer. */
    method CopyByte(from: nat, dist: nat, ghost len: nat)
      requires Valid() && room > 0 && 1 <= dist <= WSIZE && from == Back(write, dist) && len > 0
      modifies this`write, this`room, this`hist, buf
      ensures Valid() && write == old(write) + 1 && room == old(room) - 1
      ensures Deflate.Copy(hist, dist, len - 1) == Deflate.Copy(old(hist), dist, len)
      ensures Back(write, dist) == if from + 1 == WSIZE then 0 else from + 1
    {
      assert buf[..][from] == hist[|hist| - dist];
      OutByte(buf[from]);
    }

    /** COPY: copies a string of the history, stopping when the caller must take output first. */
    method CopyString(dist: nat, len: nat, r: Status) returns (left: nat, r': Status)
      requires Valid() && 1 <= dist <= WSIZE
      modifies this, buf
      ensures Valid() && left <= len && old(output) <= output
      ensures Deflate.Copy(hist, dist, left) == Deflate.Copy(old(hist), dist, len)
      ensures left > 0 ==> availOut == 0 && room == 0
      ensures r' == r || r' == ZOk
    {
      left, r' := len, r;
      var f := if write < dist then WSIZE - (dist - write) else write - dist;
      while left > 0
        invariant Valid() && left <= len && old(output) <= output
        invariant f == Back(write, dist) && (r' == r || r' == ZOk)
        invariant Deflate.Copy(hist, dist, left) == Deflate.Copy(old(hist), dist, len)
      {
        var ok;
        ok, r' := NeedOut(r');
        if !ok {
          return;
        }
        CopyByte(f, dist, left);
        f := f + 1;
        if f == WSIZE {
          f := 0;
        }
        left := left - 1;
      }
    }

    /** `n` bytes in a row, from `from` on, without checks; `len` counts the bytes of the whole string to come. */
    method CopyRun(from: nat, n: nat, dist: nat, ghost len: nat)
      requires Valid() && n <= room && n <= len && 1 <= dist <= WSIZE
      requires n > 0 ==> from == Back(write, dist) && from + n <= WSIZE
      modifies this`write, this`room, this`hist, buf
      ensures Valid() && write == old(write) + n && room == old(room) - n
      ensures Deflate.Copy(hist, dist, len - n) == Deflate.Copy(old(hist), dist, len)
      ensures n > 0 ==> Back(write, dist) == if from + n == WSIZE then 0 else from + n
    {
      hide Mirrors, Adler32.Checksum, Deflate.Copy;
      var r, c := from, n;
      while c > 0
        invariant 0 <= c <= n && r == from + (n - c)
        invariant Valid() && write == old(write) + (n - c) && room == old(room) - (n - c)
        invariant n > 0 ==> Back(write, dist) == if r == WSIZE then 0 else r
        invariant Deflate.Copy(hist, dist, len - (n - c)) == Deflate.Copy(old(hist), dist, len)
      {
        CopyByte(r, dist, len - (n - c));
        r, c := r + 1, c - 1;
      }
    }

    /** The copy of the fast path: the window has room for the whole string. */
    method CopyFast(dist: nat, len: nat)
      requires Valid() && 1 <= dist <= WSIZE && 3 <= len <= room
      modifies this`write, this`room, this`hist, buf
      ensures Valid() && room == old(room) - len
      ensures hist == Deflate.Copy(old(hist), dist, len)
    {
      var r, c := 0, len;
      if write >= dist {
        r := write - dist;
        CopyByte(r, dist, c);
        CopyByte(r + 1, dist, c - 1);
        r, c := r + 2, c - 2;
      } else {
        var e := dist - write;
        r := WSIZE - e;
        if c > e {
          CopyRun(r, e, dist, c);
          c := c - e;
          r := 0;
        }
      }
      CopyRun(r, c, dist, c);
    }

    /** Writes bytes taken straight from the input. */
    method PutBytes(src: seq<byte>)
      requires Valid() && |src| <= room
      modifies this`write, this`room, this`hist, buf
      ensures Valid() && room == old(room) - |src|
      ensures hist == old(hist) + src
    {
      for i := 0 to |src|
        invariant Valid() && room == old(room) - i && hist == old(hist) + src[..i]
      {
        OutByte(src[i]);
      }
      assert src[..|src|] == src;
    }
  }

  /** A copy is pure LZ77: byte for byte, each is the one `dist` before it, however much they overlap. */
  lemma {:induction false} CopyIsLZ77(hist: seq<byte>, dist: nat, len: nat, i: nat)
    requires 1 <= dist <= |hist| && i < len
    ensures Deflate.Copy(hist, dist, len)[|hist| + i] == Deflate.Copy(hist, dist, len)[|hist| + i - dist]
    decreases len
  {
    var hist' := hist + [hist[|hist| - dist]];
    var r := Deflate.Copy(hist', dist, len - 1);
    if i == 0 {
      assert r[|hist|] == hist'[|hist|] && r[|hist| - dist] == hist'[|hist| - dist];
    } else {
      CopyIsLZ77(hist', dist, len - 1, i - 1);
    }
  }

  lemma {:induction false} CheckFits(buf: seq<byte>)
    ensures Adler32.Checksum(buf) < Adler32.WORD
  {
    Adler32.FoldBound(Adler32.Unpack(1), buf);
  }
}
