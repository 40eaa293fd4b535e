/**
  The TFTP client of `pxe.c` against a lockstep server and an unreliable network (RFC 1350), and
  the window through which the boot loader reads the file.
 */
module Tftp {
  import opened Bits

  const BLKSIZE: nat := 512
  /** `BUFFERSIZE` is written as the difference of two numbers. */
  const WHOLE: nat := 32768
  const LESS: nat := 2048
  const BUFFERSIZE: nat := WHOLE - LESS
  const NUMBERS: nat := 65536
  /** By how much the position of the buffer is wrong after the file was read again from its start: there are no parentheses around the difference. */
  const SLIP: nat := 4096

  /** Where block `b` begins and ends; the last block is the first that is not full. */
  function Upto(file: seq<byte>, b: nat): (n: nat)
    ensures n <= |file| && n <= BLKSIZE * b
  {
    if BLKSIZE * b <= |file| then BLKSIZE * b else |file|
  }

  function Block(file: seq<byte>, b: nat): (s: seq<byte>)
    requires b >= 1
    ensures |s| <= BLKSIZE
  {
    file[Upto(file, b - 1)..Upto(file, b)]
  }

  function BlockCount(file: seq<byte>): (n: nat) {
    |file| / BLKSIZE + 1
  }

  /** A block number as it is sent, in 16 bits. */
  function Wrap(b: nat): (n: nat) {
    b % NUMBERS
  }

  /** The size of `n` full blocks. */
  function Full(n: nat): (r: nat) {
    BLKSIZE * n
  }

  lemma {:induction false} FullNext(n: nat)
    ensures Full(n + 1) == Full(n) + BLKSIZE && Full(0) == 0
  {
  }

  // ----- server and network -------------------------------------------------------------------

  /** What happens next between the two sides. */
  datatype Event =
    | RequestArrives
    | ServerResends
    | AckArrives(which: nat)
    | DataArrives(which: nat)
    | OtherPacket
    | Silence

  datatype Packet = Data(number: nat, payload: seq<byte>) | NotData | Nothing

  function Numbers(n: nat): (s: seq<nat>)
    ensures |s| == n && forall i :: 0 <= i < n ==> s[i] == i + 1
  {
    seq(n, i => i + 1)
  }

  /** What happens if nothing goes wrong, from block `n` on: the server hears what it waits for, its block arrives. */
  function Smooth(n: nat, m: nat): (s: seq<Event>)
    requires n <= m
    decreases m - n
  {
    if n == m then [] else [if n == 0 then RequestArrives else AckArrives(n - 1), DataArrives(n)] + Smooth(n + 1, m)
  }

  /**
    The server and the network.  Packets once sent can arrive in any order, any number of times, or
    never; the script decides.
   */
  class Network {
    const file: seq<byte>
    /** The block the server is sending, 0 before the request arrives. */
    var server: nat
    /** The blocks sent so far. */
    var sent: seq<nat>
    /** The block numbers acknowledged so far. */
    var acks: seq<nat>
    var script: seq<Event>
    /** What happens when the file is opened again, once and again. */
    var sessions: seq<seq<Event>>

    /** Holds at every moment of every run, when the client has accepted `next` blocks. */
    ghost predicate Valid(next: nat)
      reads this`server, this`sent, this`acks
    {
      && next < NUMBERS && server <= next + 1 && (server >= 1 ==> BLKSIZE * (server - 1) <= |file|)
      && (forall i :: 0 <= i < |sent| ==> 1 <= sent[i] <= server)
      && (forall i :: 0 <= i < |acks| ==> 1 <= acks[i] <= next)
    }

    /** So far every packet has arrived once and in turn, and so it will go on. */
    ghost predicate Orderly(next: nat)
      reads this
    {
      && next <= BlockCount(file) < NUMBERS && server == next && sent == Numbers(next) && acks == Numbers(next)
      && script == Smooth(next, BlockCount(file))
    }

    constructor (file: seq<byte>, script: seq<Event>, sessions: seq<seq<Event>>)
      ensures Valid(0) && this.file == file && this.script == script && this.sessions == sessions
      ensures BlockCount(file) < NUMBERS && script == Smooth(0, BlockCount(file)) ==> Orderly(0)
    {
      this.file, this.script, this.sessions := file, script, sessions;
      server, sent, acks := 0, [], [];
    }

    /** A new request, from a new port: packets of earlier sessions do not arrive any more. */
    method Open()
      modifies this
      ensures Valid(0) && if old(sessions) == [] then script == [] && sessions == [] else script == old(sessions)[0] && sessions == old(sessions)[1..]
      ensures BlockCount(file) < NUMBERS && script == Smooth(0, BlockCount(file)) ==> Orderly(0)
    {
      server, sent, acks := 0, [], [];
      if sessions == [] {
        script := [];
      } else {
        script, sessions := sessions[0], sessions[1..];
      }
    }

    /** The server takes an acknowledgement: the one it waits for makes it go on, unless the block was the last. */
    method ServerAck(a: nat, ghost next: nat)
      requires Valid(next) && 1 <= a <= next
      modifies this`server, this`sent
      ensures Valid(next)
      ensures if old(server) >= 1 && a == Wrap(old(server)) && |Block(file, old(server))| == BLKSIZE
              then server == old(server) + 1 && sent == old(sent) + [server] else server == old(server) && sent == old(sent)
    {
      if server >= 1 && a == Wrap(server) && |Block(file, server)| == BLKSIZE {
        server := server + 1;
        sent := sent + [server];
      }
    }

    /** One event; a packet may come of it. */
    method Happen(e: Event, ghost next: nat) returns (arrived: bool, p: Packet, ghost b: nat)
      requires Valid(next)
      modifies this`server, this`sent
      ensures Valid(next)
      ensures arrived && p.Data? ==> 1 <= b <= server && p == Data(Wrap(b), Block(file, b))
      ensures e == RequestArrives && old(server) == 0 ==> !arrived && server == 1 && sent == old(sent) + [1]
      ensures e.AckArrives? && e.which < |acks| && Awaited(old(server), acks[e.which]) ==> !arrived && server == old(server) + 1 && sent == old(sent) + [server]
      ensures e.DataArrives? && e.which < |old(sent)| ==> arrived && p.Data? && b == old(sent)[e.which] && server == old(server) && sent == old(sent)
    {
      arrived, p, b := false, Nothing, 0;
      match e {
        case RequestArrives =>
          if server == 0 {
            server, sent := 1, sent + [1];
          }
        case ServerResends =>
          if server >= 1 {
            sent := sent + [server];
          }
        case AckArrives(i) =>
          if i < |acks| {
            ServerAck(acks[i], next);
          }
        case DataArrives(i) =>
          if i < |sent| {
            return true, Data(Wrap(sent[i]), Block(file, sent[i])), sent[i];
          }
        case OtherPacket =>
          return true, NotData, 0;
        case Silence =>
          return true, Nothing, 0;
      }
    }

    /** The acknowledgement that the server waits for, of a block that is not the last. */
    ghost predicate Awaited(block: nat, a: nat) {
      block >= 1 && a == Wrap(block) && |Block(file, block)| == BLKSIZE
    }

    /** The server has block `next + 1` under way. */
    ghost predicate UnderWay(next: nat)
      reads this
    {
      && next < BlockCount(file) < NUMBERS && server == next + 1 && sent == Numbers(next + 1) && acks == Numbers(next)
      && script == [DataArrives(next)] + Smooth(next + 1, BlockCount(file))
    }

    /** `udp_get`, until something arrives or ten seconds have passed. */
    method UdpGet(ghost next: nat) returns (p: Packet, ghost b: nat)
      requires Valid(next)
      modifies this`server, this`sent, this`script
      ensures Valid(next) && acks == old(acks)
      ensures p.Data? ==> 1 <= b <= server && p == Data(Wrap(b), Block(file, b))
      ensures p != Nothing ==> |script| < |old(script)|
      ensures old(script) == [] ==> p == Nothing && script == []
      ensures old(Orderly(next)) && next < BlockCount(file) ==>
                p == Data(next + 1, Block(file, next + 1)) && server == next + 1 && sent == Numbers(next + 1) && script == Smooth(next + 1, BlockCount(file))
    {
      hide Block, Orderly, UnderWay, Smooth, Valid, Awaited, Numbers;
      b := 0;
      if Orderly(next) && next < BlockCount(file) {
        OrderlyNonempty(next);
      }
      while script != []
        invariant Valid(next) && |script| <= |old(script)| && acks == old(acks)
        invariant old(Orderly(next)) && next < BlockCount(file) ==> script != [] && (Orderly(next) || UnderWay(next))
        decreases |script|
      {
        var e := script[0];
        ghost var first, second := Orderly(next) && next < BlockCount(file), UnderWay(next);
        if first {
          OrderlyFirst(next);
        } else if second {
          OrderlySecond(next);
        }
        script := script[1..];
        var arrived;
        arrived, p, b := Happen(e, next);
        if arrived {
          return;
        }
        if first {
          NowUnderWay(next);
        }
      }
      return Nothing, 0;
    }

    lemma OrderlyNonempty(next: nat)
      requires Orderly(next) && next < BlockCount(file)
      ensures script != []
    {
    }

    /** First the server hears what it waits for. */
    lemma OrderlyFirst(next: nat)
      requires Orderly(next) && next < BlockCount(file)
      ensures script != [] && next < NUMBERS && |acks| == next && server == next && sent == Numbers(next) && acks == Numbers(next)
      ensures if next == 0 then script[0] == RequestArrives else script[0] == AckArrives(next - 1) && Awaited(server, acks[next - 1])
      ensures script[1..] == [DataArrives(next)] + Smooth(next + 1, BlockCount(file)) && BlockCount(file) < NUMBERS
    {
      FullBlock(file, next);
    }

    lemma NowUnderWay(next: nat)
      requires next < BlockCount(file) < NUMBERS && server == next + 1 && sent == Numbers(next) + [next + 1] && acks == Numbers(next)
      requires script == [DataArrives(next)] + Smooth(next + 1, BlockCount(file))
      ensures UnderWay(next) && script != []
    {
      assert Numbers(next) + [next + 1] == Numbers(next + 1);
    }

    /** Then its block arrives. */
    lemma OrderlySecond(next: nat)
      requires UnderWay(next)
      ensures script[0] == DataArrives(next) && next < |sent| && sent[next] == next + 1 == server && sent == Numbers(next + 1)
      ensures script[1..] == Smooth(next + 1, BlockCount(file)) && next < BlockCount(file) < NUMBERS
    {
    }

    /** `udp_send` of an acknowledgement. */
    method SendAck(number: nat, ghost next: nat)
      requires Valid(next) && 1 <= number <= next
      modifies this`acks
      ensures Valid(next) && acks == old(acks) + [number]
    {
      acks := acks + [number];
    }
  }

  /** Every block before the last is full. */
  lemma {:induction false} FullBlock(file: seq<byte>, b: nat)
    ensures 1 <= b < BlockCount(file) ==> |Block(file, b)| == BLKSIZE
  {
  }

  /** What a data packet can be, for a client that has accepted `next` blocks. */
  lemma {:induction false} WhichBlock(next: nat, server: nat, b: nat)
    requires 1 <= b <= server <= next + 1 && next < NUMBERS
    ensures Wrap(b) == next ==> b == next
    ensures Wrap(b) == next + 1 ==> b == next + 1 && next + 1 < NUMBERS
  {
  }

  // ----- the client ------------------------------------------------------------------------------

  datatype Turn = Accepted | Duplicate | Abandoned

  predicate Aligned(len: nat) {
    len % BLKSIZE == 0
  }

  lemma {:induction false} WholeBlocks(len: nat, siz: nat, k: nat)
    requires siz == Full(k) && Aligned(len)
    ensures siz < len ==> siz + BLKSIZE <= len
    ensures len <= siz < len + BLKSIZE ==> siz == len
  {
  }

  lemma {:induction false} NextWindow(basepos: nat, bufferend: nat)
    requires basepos % BUFFERSIZE == 0 && ((bufferend == 0 && basepos == 0) || bufferend == BUFFERSIZE)
    ensures (basepos + bufferend) % BUFFERSIZE == 0 && Aligned(BUFFERSIZE)
  {
  }

  class Client {
    const net: Network
    /** The memory below the buffer, from the byte just below it on down. */
    const below: nat -> byte
    var nextpacket: nat
    var basepos: int
    var bufferend: nat
    var endoffile: bool
    var savedpos: nat
    var filepos: nat
    var buffer: seq<byte>
    /** Everything accepted since the file was opened. */
    ghost var accepted: seq<byte>

    /** Exactly the first `nextpacket` blocks were accepted; the end is noted only with the last one. */
    ghost predicate Session()
      reads this`nextpacket, this`accepted, this`endoffile, net
    {
      && net.Valid(nextpacket)
      && accepted == net.file[..Upto(net.file, nextpacket)]
      && if endoffile then accepted == net.file else |accepted| == BLKSIZE * nextpacket
    }

    /** `tftpopen`. */
    constructor (net: Network, below: nat -> byte)
      requires net.Valid(0)
      ensures Session() && Window() && this.net == net && this.below == below && filepos == 0 && savedpos == 0 && basepos == 0 && nextpacket == 0 && !endoffile && accepted == []
    {
      this.net, this.below := net, below;
      nextpacket, basepos, bufferend, endoffile, savedpos, filepos, buffer := 0, 0, 0, false, 0, 0, [];
      accepted := [];
    }

    /** One packet of `tftpget`, once it has arrived. */
    method Accept(p: Packet, ghost b: nat) returns (bytes: seq<byte>)
      requires Session() && !endoffile && p.Data? && 1 <= b <= net.server && p == Data(Wrap(b), Block(net.file, b))
      requires p.number == nextpacket + 1
      modifies this`nextpacket, this`accepted, this`endoffile, net`acks
      ensures Session() && accepted == old(accepted) + bytes && |bytes| <= BLKSIZE
      ensures nextpacket == old(nextpacket) + 1 && net.acks == old(net.acks) + [nextpacket]
      ensures endoffile <==> |bytes| != BLKSIZE
      ensures net.script == old(net.script) && net.server == old(net.server) && net.sent == old(net.sent)
    {
      WhichBlock(nextpacket, net.server, b);
      NextBlock(net.file, nextpacket, accepted);
      nextpacket := p.number;
      var size := if |p.payload| > BLKSIZE then BLKSIZE else |p.payload|;
      bytes := p.payload[..size];
      accepted := accepted + bytes;
      net.SendAck(p.number, nextpacket);
      if size != BLKSIZE {
        endoffile := true;
      }
    }

    /** One turn of the loop of `tftpget`. */
    method Receive() returns (turn: Turn, bytes: seq<byte>, ghost p: Packet)
      requires Session() && !endoffile
      modifies this`nextpacket, this`accepted, this`endoffile, net`server, net`sent, net`acks, net`script
      ensures Session() && accepted == old(accepted) + bytes
      ensures turn == Accepted ==> nextpacket == old(nextpacket) + 1 && |bytes| <= BLKSIZE && (endoffile <==> |bytes| != BLKSIZE)
      ensures turn != Accepted ==> !endoffile && bytes == [] && nextpacket == old(nextpacket)
      ensures turn != Abandoned ==> |net.script| < |old(net.script)|
      ensures old(net.script) == [] ==> turn == Abandoned
      ensures turn == if !p.Data? then Abandoned else if p.number == old(nextpacket) then Duplicate
                      else if p.number == old(nextpacket) + 1 then Accepted else Abandoned
      ensures net.acks == if turn == Abandoned then old(net.acks) else old(net.acks) + [nextpacket]
      ensures old(net.Orderly(nextpacket)) ==> turn == Accepted && net.Orderly(nextpacket)
    {
      SessionIs();
      MoreBlocks(net.file, nextpacket);
      assert Numbers(nextpacket) + [nextpacket + 1] == Numbers(nextpacket + 1);
      hide Upto, Block, Smooth, Wrap, BlockCount, Numbers;
      bytes := [];
      var got, b := net.UdpGet(nextpacket);
      p := got;
      if got == Nothing || got == NotData {
        return Abandoned, [], got;
      }
      WhichBlock(nextpacket, net.server, b);
      if got.number == nextpacket {
        net.SendAck(got.number, nextpacket);
        return Duplicate, [], got;
      }
      if got.number != nextpacket + 1 {
        return Abandoned, [], got;
      }
      bytes := Accept(got, b);
      turn := Accepted;
    }

    /** `tftpget`: fetches `len` bytes or up to the end of the file; -1 when the transfer is given up. */
    method Get(len: nat) returns (siz: int, got: seq<byte>, ghost last: Packet)
      requires Session() && !endoffile
      modifies this`nextpacket, this`accepted, this`endoffile, this`basepos, net`server, net`sent, net`acks, net`script
      ensures Session() && accepted == old(accepted) + got
      ensures siz == -1 || siz == |got|
      ensures siz == -1 ==> !last.Data? || (last.number != nextpacket && last.number != nextpacket + 1)
      ensures siz >= 0 && len > 0 ==> basepos == |old(accepted)|
      ensures old(net.Orderly(nextpacket)) ==> siz != -1 && net.Orderly(nextpacket)
      ensures siz >= 0 ==> endoffile || siz >= len
      ensures old(net.script) == [] && len > 0 ==> siz == -1
      ensures siz >= 0 && Aligned(len) ==> if endoffile then siz < len else siz == len
    {
      hide Session, Network.Orderly, Network.Valid, Aligned, Upto, Block, Numbers, BlockCount, Full;
      var first := true;
      var left: int := len;
      siz, got, last := 0, [], Nothing;
      SessionIs();
      FullNext(0);
      while left > 0
        invariant Session() && !endoffile && accepted == old(accepted) + got
        invariant 0 <= siz == |got| && left == len - siz
        invariant (old(net.Orderly(nextpacket)) ==> net.Orderly(nextpacket)) && (old(net.script) == [] ==> first && net.script == [])
        invariant Full(old(nextpacket)) == |old(accepted)| && nextpacket >= old(nextpacket) && siz == Full(nextpacket - old(nextpacket))
        invariant siz < len + BLKSIZE && (if first then siz == 0 && nextpacket == old(nextpacket) else basepos == |old(accepted)|)
        decreases |net.script|
      {
        if Aligned(len) {
          WholeBlocks(len, siz, nextpacket - old(nextpacket));
        }
        var turn, bytes;
        FullNext(nextpacket - old(nextpacket));
        turn, bytes, last := Receive();
        if turn == Abandoned {
          return -1, got, last;
        } else if turn == Accepted {
          Assoc(old(accepted), got, bytes);
          got, left, siz := got + bytes, left - |bytes|, siz + |bytes|;
          if first {
            basepos := Full(nextpacket - 1);
          }
          first := false;
          if |bytes| != BLKSIZE {
            return;
          }
        }
      }
      if Aligned(len) {
        WholeBlocks(len, siz, nextpacket - old(nextpacket));
      }
    }

    lemma SessionIs()
      requires Session()
      ensures accepted <= net.file
      ensures if endoffile then accepted == net.file else |accepted| == Full(nextpacket)
    {
    }

    // ----- the window ----------------------------------------------------------------------------

    /** The buffer is a slice of the file, the last one fetched. */
    ghost predicate Window()
      reads this`nextpacket, this`accepted, this`endoffile, this`basepos, this`bufferend, this`buffer, net
    {
      && Session() && bufferend <= BUFFERSIZE && 0 <= basepos && basepos % BUFFERSIZE == 0
      && basepos + bufferend == |accepted| && |buffer| >= bufferend
      && buffer[..bufferend] == net.file[basepos..basepos + bufferend]
      && (!endoffile ==> (bufferend == 0 && basepos == 0) || bufferend == BUFFERSIZE)
      && (endoffile ==> bufferend < BUFFERSIZE)
    }

    lemma WindowIs()
      requires Window()
      ensures Session() && 0 <= basepos && bufferend <= BUFFERSIZE && basepos + bufferend == |accepted|
      ensures if endoffile then bufferend < BUFFERSIZE else (bufferend == 0 && basepos == 0) || bufferend == BUFFERSIZE
    {
      hide Session;
    }

    /** Refills the buffer; false when the transfer was given up. */
    method Refill() returns (ok: bool)
      requires Window() && !endoffile
      modifies this, net`server, net`sent, net`acks, net`script
      ensures Session() && (ok ==> Window())
      ensures ok ==> basepos == old(basepos + bufferend) && (endoffile || |accepted| > |old(accepted)|)
      ensures filepos == old(filepos) && savedpos == old(savedpos) && (old(net.script) == [] ==> !ok)
      ensures old(net.Orderly(nextpacket)) ==> ok && net.Orderly(nextpacket)
    {
      hide Session, Network.Orderly;
      ghost var was := accepted;
      NextWindow(basepos, bufferend);
      var siz, got, _ := Get(BUFFERSIZE);
      ok := siz != -1;
      SessionIs();
      if ok {
        Latest(net.file, accepted, was, got);
        bufferend, buffer := siz, got;
      }
    }

    /** Copies `n` bytes at `filepos` out of the buffer. */
    method Take(n: nat, ghost out: seq<byte>, ghost start: nat) returns (bytes: seq<byte>)
      requires Window() && basepos <= filepos && filepos + n <= basepos + bufferend && Copied(net.file, start, filepos, out)
      modifies this`filepos
      ensures Window() && filepos == old(filepos) + n && Copied(net.file, start, filepos, out + bytes) && |bytes| == n
    {
      SessionIs();
      hide Session, Upto;
      var pos := filepos - basepos;
      bytes := buffer[pos..pos + n];
      SliceOfSlice(net.file, basepos, basepos + bufferend, buffer, pos, n);
      CopiedMore(net.file, start, filepos, out, bytes);
      hide Copied;
      filepos := filepos + n;
    }

    /** More is asked for than is in the buffer, and nothing will come any more. */
    ghost predicate Silent(size: nat)
      reads this`basepos, this`bufferend, this`filepos, this`endoffile, net`script
    {
      net.script == [] && !endoffile && basepos <= filepos <= basepos + BUFFERSIZE && filepos + size > basepos + bufferend && size > 0
    }

    /** How much of it is in the buffer. */
    ghost function Buffered(): (n: nat)
      reads this`basepos, this`bufferend, this`filepos
    {
      if filepos < basepos + bufferend then basepos + bufferend - filepos else 0
    }

    /** The loop of `tftp_read`: copies and refills until the request is served or the end of the file is in the buffer. */
    method ReadOn(size: nat) returns (stage: Stage, left: nat, out: seq<byte>)
      requires Window() && basepos <= filepos && !endoffile
      modifies this, net`server, net`sent, net`acks, net`script
      ensures Session()
      ensures stage == Skipped <==> old(filepos - basepos) > BUFFERSIZE
      ensures stage == Skipped ==> Window() && filepos == old(filepos) && basepos <= filepos
      ensures savedpos == old(savedpos)
      ensures stage == Served || stage == AtEnd ==>
                && Window() && basepos <= filepos == old(filepos) + |out| && left == size - |out|
                && (out == [] || Copied(net.file, old(filepos), filepos, out))
      ensures stage == Served ==> left == 0 && filepos <= |net.file| && (filepos <= basepos + bufferend || out == [])
      ensures stage == AtEnd ==> endoffile && (out == [] || (filepos == basepos && left > 0))
      ensures |out| <= size
      ensures old(Silent(size)) ==> stage == GivenUp && |out| == old(Buffered())
      ensures old(net.Orderly(nextpacket)) ==> stage != GivenUp && net.Orderly(nextpacket)
    {
      hide Session, Copied, Network.Orderly, Window;
      ghost var start := filepos;
      WindowIs();
      left, out := size, [];
      while true
        invariant Window() && !endoffile && basepos <= filepos == start + |out| && left == size - |out|
        invariant out == [] || (filepos == basepos && left > 0 && Copied(net.file, start, filepos, out))
        invariant (old(net.Orderly(nextpacket)) ==> net.Orderly(nextpacket)) && savedpos == old(savedpos)
        invariant old(Silent(size)) ==> out == [] && Silent(left) && filepos == old(filepos) && basepos == old(basepos) && bufferend == old(bufferend)
        invariant if old(filepos - basepos) <= BUFFERSIZE then filepos - basepos <= BUFFERSIZE else basepos == old(basepos) && out == []
        decreases |net.file| - |accepted|
      {
        WindowIs();
        SessionIs();
        var pos := filepos - basepos;
        var remain := bufferend - pos;
        if pos > BUFFERSIZE {
          return Skipped, left, [];
        }
        CopiedNothing(net.file, filepos);
        if remain >= left {
          var bytes := Take(left, out, start);
          return Served, 0, out + bytes;
        }
        if remain > 0 {
          var bytes := Take(remain, out, start);
          out, left := out + bytes, left - remain;
        }
        var ok := Refill();
        if !ok {
          return GivenUp, left, out;
        }
        WindowIs();
        SessionIs();
        if bufferend != BUFFERSIZE {
          return AtEnd, left, out;
        }
      }
    }

    /**
      `tftp_read` at `filepos`, where that is not before the buffer, up to its end or to a transfer that is
      given up, for which -1 stands.  `out` is what was copied; the result is what the caller is told, `carry`
      being what was counted before.
     */
    method ReadOnce(size: nat, carry: nat) returns (len: int, out: seq<byte>)
      requires Window() && basepos <= filepos && (carry > 0 ==> size > 0)
      modifies this, net`server, net`sent, net`acks, net`script
      ensures Session()
      ensures !old(endoffile) && old(filepos - basepos) > BUFFERSIZE ==> len == 0 && out == [] && Window() && filepos == old(filepos)
      ensures len != -1 && (old(endoffile) || old(filepos - basepos) <= BUFFERSIZE) ==>
                && Window() && basepos <= filepos && filepos == old(filepos) + |out|
                && out == net.file[Cut(net.file, old(filepos))..Cut(net.file, old(filepos) + size)]
                && len == if Uncounted(net.file, old(filepos), size, old(endoffile)) then 0 else carry + |out|
      ensures len != -1 ==> len >= 0 && basepos <= savedpos
      ensures |out| <= size
      ensures len > carry ==> filepos <= basepos + bufferend
      ensures old(Silent(size)) ==> len == -1 && |out| == old(Buffered())
      ensures old(net.Orderly(nextpacket)) ==> len != -1 && net.Orderly(nextpacket)
    {
      hide Session, Network.Orderly, Window;
      WindowIs();
      SessionIs();
      savedpos := filepos + size;
      var left: nat := size;
      out := [];
      if !endoffile {
        var stage;
        stage, left, out := ReadOn(size);
        if stage == GivenUp {
          return -1, out;
        } else if stage == Skipped {
          return 0, [];
        } else if stage == Served {
          return carry + |out|, out;
        }
      }
      len, out := ReadEnd(left, out, old(filepos), carry);
    }

    // ----- going back, and starting again ----------------------------------------------------------

    /** Nothing goes wrong after the file is opened again. */
    ghost predicate Clear()
      reads net`sessions
    {
      BlockCount(net.file) < NUMBERS && net.sessions != [] && net.sessions[0] == Smooth(0, BlockCount(net.file))
    }

    ghost predicate Opened()
      reads this`nextpacket, this`accepted, this`endoffile, this`basepos, this`bufferend, this`savedpos, this`buffer, net
    {
      Window() && basepos == 0 && bufferend == 0 && savedpos == 0 && !endoffile && accepted == [] && nextpacket == 0
    }

    /** `tftp_close` and `tftpopen`. */
    method Reopen()
      modifies this`nextpacket, this`accepted, this`endoffile, this`basepos, this`bufferend, this`savedpos, net
      ensures Opened() && net.sessions == (if old(net.sessions) == [] then [] else old(net.sessions)[1..])
      ensures old(Clear()) ==> net.Orderly(nextpacket)
    {
      hide Smooth;
      net.Open();
      nextpacket, basepos, bufferend, endoffile, savedpos := 0, 0, 0, false, 0;
      accepted := [];
    }

    /** Reads from the start again, up to the end of the buffer that `filepos` is in. */
    method Rewind() returns (ok: bool)
      requires Opened() && BufferEnd(filepos) <= |net.file|
      modifies this`nextpacket, this`accepted, this`endoffile, this`basepos, this`buffer, this`savedpos, net`server, net`sent, net`acks, net`script
      ensures Session() && bufferend == 0
      ensures ok ==> !endoffile && savedpos == |accepted| == BufferEnd(filepos)
      ensures old(net.Orderly(nextpacket)) ==> ok && net.Orderly(nextpacket)
    {
      hide Session, Network.Orderly, BufferEnd;
      ok := true;
      var more := true;
      ghost var n: nat := 0;
      BufferEndIs(filepos, 0);
      while more
        invariant Session() && !endoffile && savedpos == |accepted| == BUFFERSIZE * n && bufferend == 0
        invariant more ==> savedpos + BUFFERSIZE <= BufferEnd(filepos)
        invariant !more ==> savedpos == BufferEnd(filepos)
        invariant old(net.Orderly(nextpacket)) ==> net.Orderly(nextpacket)
        decreases BufferEnd(filepos) - savedpos, more
      {
        AlignedBuffer();
        var siz, got, _ := Get(BUFFERSIZE);
        if siz < 0 {
          return false;
        }
        SessionIs();
        buffer, savedpos, n := got, savedpos + BUFFERSIZE, n + 1;
        BufferEndIs(filepos, n);
        more := savedpos <= filepos;
      }
    }

    lemma MemoryIs(n: nat)
      requires Window() && 0 <= filepos < basepos && n <= basepos + bufferend - filepos
      requires basepos == BufferEnd(filepos)
      ensures filepos - basepos + n <= |buffer|
      ensures var s := Memory(buffer, below, filepos - basepos, n); forall i :: 0 <= i < n ==> GarbledByte(net.file, filepos, below, i, s[i])
    {
      hide Session;
      SessionIs();
      var k, b, f := basepos - filepos, buffer[..bufferend], net.file[basepos..basepos + bufferend];
      assert forall j :: 0 <= j < bufferend ==> buffer[j] == b[j] && f[j] == net.file[basepos + j];
    }

    /** The buffer ends before the position remembered, or is the one behind that which it is in. */
    ghost predicate Remembered()
      reads this`basepos, this`savedpos
    {
      basepos <= savedpos || basepos == BufferEnd(savedpos)
    }

    /** All that is wanted and there, from below the buffer on. */
    method ReadBelow(n: nat, ghost size: nat) returns (len: int, out: seq<byte>)
      requires Window() && filepos < basepos == BufferEnd(filepos) && savedpos == filepos + size
      requires n == (if filepos + size > basepos + bufferend then basepos + bufferend - filepos else size)
      requires filepos + size <= basepos + bufferend || bufferend != BUFFERSIZE
      modifies this`filepos
      ensures Window() && Remembered() && |out| == n == len && BufferEnd(old(filepos)) <= |net.file|
      ensures Garbled(net.file, old(filepos), size, below, len, out)
    {
      hide Session, BufferEnd, Garbled, GarbledByte;
      SessionIs();
      BufferEndIs(filepos, 0);
      MemoryIs(n);
      out, len := Memory(buffer, below, filepos - basepos, n), n;
      GarbledPart(net.file, filepos, size, below, out, basepos + bufferend);
      if savedpos < basepos {
        SameBuffer(filepos, savedpos);
      }
      filepos := filepos + n;
    }

    /** The buffer is the one behind that which `filepos` is in, as if it were that one. */
    method ReadGarbled(size: nat) returns (len: int, out: seq<byte>)
      requires Window() && filepos < basepos == BufferEnd(filepos) && basepos <= |net.file|
      modifies this, net`server, net`sent, net`acks, net`script
      ensures Session() && |out| <= size && (len == -1 || len >= 0) && (len != -1 ==> Window() && Remembered())
      ensures len != -1 ==> Garbled(net.file, old(filepos), size, below, len, out)
      ensures old(net.Orderly(nextpacket)) ==> len != -1
    {
      hide Session, Network.Orderly, BufferEnd, Garbled, GarbledByte, Uncounted, Window;
      WindowIs();
      SessionIs();
      BufferEndIs(filepos, 0);
      savedpos := filepos + size;
      var pos := filepos - basepos;
      var remain := bufferend - pos;
      if size <= remain || bufferend != BUFFERSIZE {
        len, out := ReadBelow(if size > remain then remain else size, size);
      } else {
        len, out := ReadPast(size, remain);
      }
    }

    /** All that is there, from below the buffer on, and then the next buffers. */
    method ReadPast(size: nat, remain: nat) returns (len: int, out: seq<byte>)
      requires Window() && filepos < basepos == BufferEnd(filepos) && remain == basepos + bufferend - filepos < size && bufferend == BUFFERSIZE
      modifies this, net`server, net`sent, net`acks, net`script
      ensures Session() && |out| <= size && (len == -1 || len >= 0) && (len != -1 ==> Window() && Remembered())
      ensures BufferEnd(old(filepos)) <= |net.file| && (len != -1 ==> Garbled(net.file, old(filepos), size, below, len, out))
      ensures old(net.Orderly(nextpacket)) ==> len != -1
    {
      hide Session, Network.Orderly, BufferEnd, Garbled, GarbledByte, Uncounted, Window;
      WindowIs();
      SessionIs();
      ghost var start := filepos;
      MemoryIs(remain);
      out := Memory(buffer, below, filepos - basepos, remain);
      ghost var first := out;
      filepos := filepos + remain;
      var rest;
      len, rest := ReadOnce(size - remain, remain);
      out := out + rest;
      if len != -1 {
        GarbledWhole(net.file, start, size, below, first, rest, len);
      }
    }

    /** `tftp_read` at a position before the buffer. */
    method ReadBack(size: nat) returns (len: int, out: seq<byte>)
      requires Window() && filepos < basepos
      modifies this, net
      ensures Session() && |out| <= size && BufferEnd(old(filepos)) <= |net.file| && (len == -1 || len >= 0)
      ensures net.sessions == if old(net.sessions) == [] then [] else old(net.sessions)[1..]
      ensures len != -1 && old(filepos) == 0 ==> Told(net.file, 0, size, false, 0, len, out) && Window() && basepos <= savedpos
      ensures len != -1 && old(filepos) > 0 ==>
                if old(filepos) % BUFFERSIZE + SLIP > BUFFERSIZE then len == 0 && out == []
                else Garbled(net.file, old(filepos), size, below, len, out) && Window() && Remembered()
      ensures old(Clear()) ==> len != -1
    {
      hide Session, Network.Orderly, BufferEnd, Garbled, Clear, Remembered, Uncounted;
      SessionIs();
      BackIsWhole(filepos, basepos);
      Reopen();
      if filepos == 0 {
        len, out := ReadOnce(size, 0);
        return;
      }
      var ok := Rewind();
      if !ok {
        return -1, [];
      }
      len, out := ReadRewound(size);
    }

    /** The buffer that `filepos` is in has been read, but counts as empty, and is taken to begin earlier than it does. */
    method ReadRewound(size: nat) returns (len: int, out: seq<byte>)
      requires Session() && !endoffile && bufferend == 0 && savedpos == |accepted| == BufferEnd(filepos)
      modifies this, net`server, net`sent, net`acks, net`script
      ensures Session() && |out| <= size && (len == -1 || len >= 0) && BufferEnd(old(filepos)) <= |net.file|
      ensures len != -1 ==>
                if old(filepos) % BUFFERSIZE + SLIP > BUFFERSIZE then len == 0 && out == []
                else Garbled(net.file, old(filepos), size, below, len, out) && Window() && Remembered()
      ensures old(net.Orderly(nextpacket)) ==> len != -1
    {
      hide Session, Network.Orderly, BufferEnd, Garbled, Uncounted;
      SessionIs();
      BufferEndIs(filepos, 0);
      basepos := savedpos - WHOLE - LESS;
      savedpos := filepos + size;
      if filepos - basepos > BUFFERSIZE {
        return 0, [];
      }
      ghost var was := accepted;
      AlignedBuffer();
      var siz, got, _ := Get(BUFFERSIZE);
      if siz == -1 {
        return -1, [];
      }
      SessionIs();
      Latest(net.file, accepted, was, got);
      bufferend, buffer := siz, got;
      len, out := ReadGarbled(size);
    }

    /**
      `tftp_read`.  After a transfer that was given up, all is done again from a new request, and what was
      counted before is counted again; -1 stands for a run in which that goes on.  Without that: at a position
      in or behind the buffer, by at most a buffer's length, and at the start of the file, it delivers the file's
      bytes; at any other position before the buffer it delivers nothing, or memory from below the buffer.
     */
    method Read(size: nat) returns (len: int, out: seq<byte>, ghost aborts: nat, ghost carried: nat)
      requires Window() && Remembered()
      modifies this, net
      ensures Session() && (len == -1 ==> net.sessions == []) && (aborts == 0 ==> carried == 0)
      ensures aborts == 0 && len != -1 && old(basepos <= filepos) ==>
                && Window() && basepos <= savedpos && net.sessions == old(net.sessions)
                && if old(endoffile) || old(filepos - basepos) <= BUFFERSIZE
                   then Told(net.file, old(filepos), size, old(endoffile), 0, len, out) && basepos <= filepos == old(filepos) + |out| && (len > 0 ==> filepos <= basepos + bufferend)
                   else len == 0 && out == [] && filepos == old(filepos)
      ensures aborts == 0 && len != -1 && old(filepos < savedpos && filepos < basepos) && old(filepos) == 0 ==> Told(net.file, 0, size, false, 0, len, out) && Window() && basepos <= savedpos
      ensures aborts == 0 && len != -1 && old(filepos < savedpos && filepos < basepos) && old(filepos) > 0 ==>
                && BufferEnd(old(filepos)) <= |net.file|
                && if old(filepos) % BUFFERSIZE + SLIP > BUFFERSIZE then len == 0 && out == []
                   else Garbled(net.file, old(filepos), size, below, len, out) && Window() && Remembered()
      ensures aborts == 0 && len != -1 && old(savedpos <= filepos < basepos) ==>
                && BufferEnd(old(filepos)) <= |net.file| && Garbled(net.file, old(filepos), size, below, len, out) && Window() && Remembered()
      ensures aborts > 0 && len != -1 ==>
                && Window() && basepos <= savedpos
                && if old(filepos) <= BUFFERSIZE then Told(net.file, old(filepos), size, false, carried, len, out) else len == 0 && out == []
      ensures old(net.Orderly(nextpacket)) && old(basepos <= filepos) ==> aborts == 0 && len != -1 && net.Orderly(nextpacket)
      ensures old(Clear()) && old(filepos < savedpos && filepos < basepos) ==> aborts == 0 && len != -1
      ensures old(Silent(size)) && old(Clear()) ==> aborts == 1 && carried == old(Buffered()) && len != -1
    {
      hide Session, Network.Orderly, BufferEnd, Garbled, Clear, Uncounted;
      var save := filepos;
      aborts, carried := 0, 0;
      if filepos < savedpos && basepos > filepos {
        len, out := ReadBack(size);
      } else if basepos > filepos {
        SameBuffer(savedpos, filepos);
        SessionIs();
        len, out := ReadGarbled(size);
      } else {
        len, out := ReadOnce(size, 0);
      }
      SomeSession();
      if len == -1 && net.sessions != [] {
        len, out, aborts, carried := Retransmit(size, save, |out|);
      }
    }

    lemma SomeSession()
      ensures Clear() ==> net.sessions != []
    {
    }

    /** Before the end of the file, the buffer is full, and the one that a position in it is in. */
    lemma Within(q: nat, start: nat)
      requires Window() && start == BUFFERSIZE * q && start < filepos < start + BUFFERSIZE < |net.file| && basepos <= filepos <= basepos + bufferend
      ensures !endoffile && bufferend == BUFFERSIZE && basepos == start
    {
      hide Session;
      SessionIs();
      var n := basepos / BUFFERSIZE;
      assert basepos == BUFFERSIZE * n;
      assert n == q;
    }

    /** After a transfer was given up: new requests, until the read ends or is given up for good. */
    method Retransmit(size: nat, save: nat, copied: nat) returns (len: int, out: seq<byte>, ghost aborts: nat, ghost carried: nat)
      requires Session() && copied <= size && net.sessions != []
      modifies this, net
      ensures Session() && aborts > 0 && (len == -1 ==> net.sessions == [])
      ensures old(Clear()) ==> aborts == 1 && carried == copied && len != -1
      ensures len != -1 ==> Window() && basepos <= savedpos
      ensures len != -1 ==> if save <= BUFFERSIZE then Told(net.file, save, size, false, carried, len, out) else len == 0 && out == []
    {
      hide Session, Network.Orderly, Clear, Uncounted;
      len, out, aborts, carried := -1, [], 0, copied;
      var count: nat := copied;
      while len == -1 && net.sessions != []
        invariant Session() && |out| <= size && count == carried && (carried > 0 ==> size > 0)
        invariant len != -1 || aborts > 0 || net.sessions != []
        invariant old(Clear()) ==> if aborts == 0 then Clear() && out == [] && carried == copied && len == -1 else aborts == 1 && carried == copied && len != -1
        invariant len != -1 ==> aborts > 0 && len >= 0 && Window() && basepos <= savedpos
        invariant len != -1 ==> if save <= BUFFERSIZE then Told(net.file, save, size, false, carried, len, out) else len == 0 && out == []
        decreases |net.sessions|
      {
        count, aborts, carried := count + |out|, aborts + 1, carried + |out|;
        filepos := save;
        Reopen();
        len, out := ReadOnce(size, count);
      }
    }

    /** The end of `tftp_read`: the end of the file is in the buffer. */
    method ReadEnd(size: nat, copied: seq<byte>, ghost start: nat, carry: nat) returns (len: int, out: seq<byte>)
      requires Window() && endoffile && basepos <= filepos == start + |copied|
      requires copied == [] || (filepos == basepos && size > 0 && Copied(net.file, start, filepos, copied))
      modifies this`filepos
      ensures Window() && basepos <= filepos == start + |out|
      ensures out == net.file[Cut(net.file, start)..Cut(net.file, start + |copied| + size)]
      ensures len == if start + |copied| < |net.file| then carry + |out| else 0
      ensures len > carry ==> filepos <= basepos + bufferend
      ensures |net.file| % BUFFERSIZE == 0 ==> |net.file| <= start + |copied| && out == copied
      ensures |net.file| % BUFFERSIZE != 0 && start < |net.file| ==> start + |copied| < |net.file|
    {
      hide Session;
      SessionIs();
      EndOfWindow(|net.file|, basepos, bufferend);
      var remain := bufferend - (filepos - basepos);
      var left := if size > remain && remain > 0 then remain else size;
      CopiedNothing(net.file, filepos);
      if remain > 0 {
        var bytes := Take(left, copied, start);
        return carry + |copied| + left, copied + bytes;
      }
      return 0, copied;
    }
  }

  /** The byte at `pos`, from the start of the buffer, or in the memory below it. */
  function ByteAt(buffer: seq<byte>, below: nat -> byte, pos: int): (x: byte)
    requires pos < |buffer|
  {
    if pos >= 0 then buffer[pos] else below(-pos - 1)
  }

  function Memory(buffer: seq<byte>, below: nat -> byte, pos: int, n: nat): (s: seq<byte>)
    requires pos + n <= |buffer|
    ensures |s| == n && forall i :: 0 <= i < n ==> s[i] == ByteAt(buffer, below, pos + i)
  {
    seq<byte>(n, i requires 0 <= i < n => ByteAt(buffer, below, pos + i))
  }

  /** The end of the buffer that a position is in. */
  function BufferEnd(pos: nat): (e: nat)
    ensures pos < e <= pos + BUFFERSIZE
  {
    BUFFERSIZE * UnitAt(BUFFERSIZE, pos) + BUFFERSIZE
  }

  lemma {:induction false} BufferEndIs(pos: nat, n: nat)
    ensures BUFFERSIZE * n <= pos ==> BUFFERSIZE * n + BUFFERSIZE <= BufferEnd(pos)
    ensures BUFFERSIZE * n > pos ==> BufferEnd(pos) <= BUFFERSIZE * n
    ensures BufferEnd(pos) % BUFFERSIZE == 0 && pos - (BufferEnd(pos) - BUFFERSIZE) == pos % BUFFERSIZE
  {
  }

  lemma {:induction false} AlignedBuffer()
    ensures Aligned(BUFFERSIZE)
  {
  }

  lemma {:induction false} SameBuffer(a: nat, b: nat)
    requires a <= b < BufferEnd(a)
    ensures BufferEnd(b) == BufferEnd(a)
  {
  }

  /** A position before the buffer is in one that was full. */
  lemma {:induction false} BackIsWhole(pos: nat, basepos: nat)
    requires pos < basepos && basepos % BUFFERSIZE == 0
    ensures BufferEnd(pos) <= basepos
  {
    BufferEndIs(pos, basepos / BUFFERSIZE);
  }

  /** A byte of what is read back. */
  ghost predicate GarbledByte(file: seq<byte>, pos: nat, below: nat -> byte, i: nat, x: byte) {
    var k := BufferEnd(pos) - pos;
    if i < k then x == below(k - 1 - i) else pos + i < |file| && x == file[pos + i]
  }

  /** All of it was in one buffer, or in the last. */
  lemma {:induction false} GarbledPart(file: seq<byte>, pos: nat, size: nat, below: nat -> byte, out: seq<byte>, behind: nat)
    requires BufferEnd(pos) <= behind <= |file| && |out| == (if pos + size > behind then behind - pos else size)
    requires forall i :: 0 <= i < |out| ==> GarbledByte(file, pos, below, i, out[i])
    requires pos + size > behind ==> behind == |file| < BufferEnd(pos) + BUFFERSIZE
    ensures Garbled(file, pos, size, below, |out|, out)
  {
    BufferEndIs(pos, 0);
    if |file| % BUFFERSIZE == 0 {
      BufferEndIs(pos, |file| / BUFFERSIZE);
    }
  }

  /** It went on to the next buffer. */
  lemma {:induction false} GarbledWhole(file: seq<byte>, pos: nat, size: nat, below: nat -> byte, first: seq<byte>, rest: seq<byte>, len: int)
    requires pos + |first| == BufferEnd(pos) + BUFFERSIZE <= |file| && |first| < size
    requires forall i :: 0 <= i < |first| ==> GarbledByte(file, pos, below, i, first[i])
    requires Told(file, pos + |first|, size - |first|, false, |first|, len, rest)
    ensures Garbled(file, pos, size, below, len, first + rest)
  {
    BufferEndIs(pos, 0);
    var all := first + rest;
    forall i | 0 <= i < |all|
      ensures GarbledByte(file, pos, below, i, all[i])
    {
      if i < |first| {
        assert GarbledByte(file, pos, below, i, first[i]);
      }
    }
  }

  /** The bytes of the file, and what the caller is told. */
  ghost predicate Told(file: seq<byte>, pos: nat, size: nat, last: bool, carry: nat, len: int, out: seq<byte>) {
    && out == file[Cut(file, pos)..Cut(file, pos + size)]
    && len == if Uncounted(file, pos, size, last) then 0 else carry + |out|
  }

  /** As many bytes as there should be; but those before the end of the buffer that `pos` was in are taken from the memory below. */
  ghost predicate Garbled(file: seq<byte>, pos: nat, size: nat, below: nat -> byte, len: int, out: seq<byte>)
    requires BufferEnd(pos) <= |file|
  {
    && |out| == Cut(file, pos + size) - pos
    && (forall i :: 0 <= i < |out| ==> GarbledByte(file, pos, below, i, out[i]))
    && len == if pos + size > |file| && |file| % BUFFERSIZE == 0 && |file| > BufferEnd(pos) then 0 else |out|
  }

  lemma {:induction false} Assoc(a: seq<byte>, b: seq<byte>, c: seq<byte>)
    ensures (a + b) + c == a + (b + c)
  {
  }

  lemma {:induction false} MoreBlocks(file: seq<byte>, next: nat)
    ensures BLKSIZE * next <= |file| ==> next < BlockCount(file)
  {
  }

  /** A file as long as the buffer, read past its end over a network without faults: all is copied, nothing is reported. */
  method ShortCountExample(x: byte) returns (len: int, out: seq<byte>)
    ensures len == 0 && out == seq(BUFFERSIZE, _ => x)
  {
    var file := seq(BUFFERSIZE, _ => x);
    var net := new Network(file, Smooth(0, BlockCount(file)), []);
    var c := new Client(net, _ => 0);
    ghost var aborts, carried;
    len, out, aborts, carried := c.Read(BUFFERSIZE + 1);
    assert file[0..|file|] == file;
  }

  /** The network falls silent after the first buffer, and the next request for two bytes, one of them in it, is served on the second try: three are reported. */
  method CountExample(x: byte) returns (len: int, out: seq<byte>)
    ensures len == 3 && |out| == 2
  {
    var file := seq<byte>(3 * BUFFERSIZE, _ => x);
    var smooth := Smooth(0, BlockCount(file));
    hide Smooth, Network.Orderly, Network.Valid, Client.Session, Garbled;
    var net := new Network(file, smooth, [smooth]);
    var c := new Client(net, _ => x);
    ghost var aborts, carried;
    len, out, aborts, carried := c.Read(BUFFERSIZE - 1);
    c.Within(0, 0);
    net.script := [];
    len, out, aborts, carried := c.Read(2);
  }

  /** The same in the second buffer: nothing is delivered, though the file goes on. */
  method LostExample(x: byte) returns (len: int, out: seq<byte>)
    ensures len == 0 && out == []
  {
    var file := seq<byte>(4 * BUFFERSIZE, _ => x);
    var smooth := Smooth(0, BlockCount(file));
    hide Smooth, Network.Orderly, Network.Valid, Client.Session, Garbled;
    var net := new Network(file, smooth, [smooth]);
    var c := new Client(net, _ => x);
    ghost var aborts, carried;
    len, out, aborts, carried := c.Read(BUFFERSIZE + 1);
    c.Within(1, BUFFERSIZE);
    net.script := [];
    len, out, aborts, carried := c.Read(BUFFERSIZE);
  }

  /** A byte in the second buffer is read, then the second byte of the file, over a network without faults: what comes is not in the file. */
  method BackwardExample(x: byte, y: byte) returns (len: int, out: seq<byte>)
    ensures len == 1 && out == [y] && seq<byte>(3 * BUFFERSIZE, _ => x)[1..2] == [x]
  {
    var file := seq<byte>(3 * BUFFERSIZE, _ => x);
    var smooth := Smooth(0, BlockCount(file));
    hide Smooth, Network.Orderly, Network.Valid, Client.Session;
    var net := new Network(file, smooth, [smooth]);
    var c := new Client(net, _ => y);
    ghost var aborts, carried;
    len, out, aborts, carried := c.Read(BUFFERSIZE + 1);
    c.filepos := 1;
    hide Garbled;
    len, out, aborts, carried := c.Read(1);
    FirstGarbled(file, c.below, len, out);
  }

  lemma {:induction false} FirstGarbled(file: seq<byte>, below: nat -> byte, len: int, out: seq<byte>)
    requires |file| >= BUFFERSIZE && Garbled(file, 1, 1, below, len, out)
    ensures len == 1 && |out| == 1 && GarbledByte(file, 1, below, 0, out[0])
  {
  }

  datatype Stage = Served | AtEnd | Skipped | GivenUp

  lemma {:induction false} CopiedNothing(file: seq<byte>, pos: nat)
    ensures pos <= |file| ==> Copied(file, pos, pos, [])
  {
  }

  lemma {:induction false} EndOfWindow(size: nat, basepos: nat, bufferend: nat)
    requires basepos % BUFFERSIZE == 0 && bufferend < BUFFERSIZE
    ensures size == basepos + bufferend ==> (size % BUFFERSIZE == 0 <==> bufferend == 0)
  {
  }

  /** A read past the end that is told as 0: from the end on, or if the end of the file is also the end of a buffer that is not the last yet. */
  predicate Uncounted(file: seq<byte>, pos: nat, size: nat, last: bool) {
    pos + size > |file| && (pos >= |file| || (!last && |file| % BUFFERSIZE == 0))
  }

  function Cut(file: seq<byte>, n: nat): (r: nat) {
    if n < |file| then n else |file|
  }

  /** `out` is the file from `start` to `pos`. */
  ghost predicate Copied(file: seq<byte>, start: nat, pos: nat, out: seq<byte>) {
    start <= pos <= |file| && out == file[start..pos]
  }

  lemma {:induction false} CopiedMore(file: seq<byte>, start: nat, pos: nat, out: seq<byte>, bytes: seq<byte>)
    requires Copied(file, start, pos, out) && pos + |bytes| <= |file| && bytes == file[pos..pos + |bytes|]
    ensures Copied(file, start, pos + |bytes|, out + bytes)
  {
    assert file[start..pos] + file[pos..pos + |bytes|] == file[start..pos + |bytes|];
  }

  lemma {:induction false} SliceOfSlice(file: seq<byte>, a: nat, b: nat, buffer: seq<byte>, pos: nat, n: nat)
    requires a <= b <= |file| && b - a <= |buffer| && buffer[..b - a] == file[a..b] && pos + n <= b - a
    ensures buffer[pos..pos + n] == file[a + pos..a + pos + n]
  {
    var s, t, u := buffer[pos..pos + n], buffer[..b - a], file[a..b];
    forall i | 0 <= i < n
      ensures s[i] == file[a + pos + i]
    {
      assert s[i] == t[pos + i] == u[pos + i];
    }
  }

  lemma {:induction false} NextBlock(file: seq<byte>, next: nat, accepted: seq<byte>)
    requires accepted == file[..Upto(file, next)] && |accepted| == BLKSIZE * next
    ensures accepted + Block(file, next + 1) == file[..Upto(file, next + 1)]
    ensures if |Block(file, next + 1)| == BLKSIZE then Upto(file, next + 1) == BLKSIZE * (next + 1) else file[..Upto(file, next + 1)] == file
  {
  }

  lemma {:induction false} Latest(file: seq<byte>, accepted: seq<byte>, was: seq<byte>, got: seq<byte>)
    requires accepted == was + got && accepted <= file
    ensures got == file[|was|..|was| + |got|]
  {
    assert accepted[|was|..] == got;
  }
}
