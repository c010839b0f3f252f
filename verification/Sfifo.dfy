/**
 The byte queue of the FTP server and its two senders. Both positions may rest at the size, which means 0;
 the number of bytes in use is their difference under a power-of-two mask.
 */
module Sfifo {
  import opened Bytes
  import opened RingQueue

  /** (writepos - readpos) & (size - 1) on 32-bit two's complement numbers. */
  function Used(size: nat, readpos: nat, writepos: nat): nat
    requires 0 < size && readpos <= size && writepos <= size
  {
    AndBits(32, (writepos - readpos) % U32, size - 1)
  }

  /** A position with its second name for 0 removed. */
  function Norm(size: nat, pos: nat): nat {
    if pos == size then 0 else pos
  }

  /** The masked difference is the number of bytes from the read to the write position, all aliases included. */
  lemma UsedIsFill(size: nat, k: nat, readpos: nat, writepos: nat)
    requires k < 32 && size == Pow2(k) && readpos <= size && writepos <= size
    ensures Norm(size, writepos) < size
    ensures Used(size, readpos, writepos) == Fill(size, readpos, Norm(size, writepos)) < size
  {
    MaskedDifference(size, k, writepos - readpos);
    WrapDifference(size, readpos, writepos);
  }

  lemma MaskedDifference(size: nat, k: nat, d: int)
    requires k < 32 && size == Pow2(k)
    ensures AndBits(32, d % U32, size - 1) == d % size
  {
    Pow2Values();
    MaskIsMod(32, d % U32, k);
    ModOfMod(d, k, 32);
  }

  lemma WrapDifference(size: nat, readpos: nat, writepos: nat)
    requires 0 < size && readpos <= size && writepos <= size
    ensures Norm(size, writepos) < size
    ensures (writepos - readpos) % size == Fill(size, readpos, Norm(size, writepos)) < size
  {
    var d := writepos - readpos;
    if d == size || d + size == 0 {
      DivModUnique(d, size, if d > 0 then 1 else -1, 0);
    } else if d < 0 {
      DivModUnique(d, size, -1, d + size);
    }
  }

  /** The doubling loop of sfifo_init: the smallest power of two that leaves room for one more byte. */
  method InitSize(requested: int) returns (size: nat, ghost k: nat)
    requires requested < 0x4000_0000
    ensures k < 31 && size == Pow2(k) && size > requested
    ensures k > 0 ==> Pow2(k - 1) <= requested
  {
    Pow2Values();
    size, k := 1, 0;
    while size <= requested
      invariant k <= 30 && size == Pow2(k)
      invariant k > 0 ==> Pow2(k - 1) <= requested
      decreases requested - size
    {
      size, k := 2 * size, k + 1;
    }
  }

  /**
   The loop can only stop if such a size exists among the signed 32-bit numbers: exactly for requests below
   2^30. The check against SFIFO_MAX_BUFFER_SIZE lets larger ones through.
   */
  lemma SizeExists(requested: int)
    ensures (exists k: nat :: requested < Pow2(k) <= 0x7FFF_FFFF) <==> requested < 0x4000_0000
  {
    Pow2Values();
    forall k: nat | requested < Pow2(k) <= 0x7FFF_FFFF
      ensures requested < 0x4000_0000
    {
      if k < 30 {
        Pow2Monotone(k, 30);
      } else if k > 31 {
        Pow2Monotone(31, k);
      }
    }
  }

  class Fifo {
    const buffer: array<byte>
    const size: nat
    ghost const k: nat
    var readpos: nat
    var writepos: nat
    // everything handed to the TCP layer
    var tcp: seq<byte>

    ghost var accepted: seq<byte>

    ghost predicate Shape()
      reads this
    {
      buffer.Length == size == Pow2(k) && k < 31 && readpos <= size && writepos <= size
    }

    ghost predicate Valid()
      reads this, buffer
    {
      && Shape() && Norm(size, writepos) < size
      && accepted == tcp + Queue(buffer[..], readpos, Norm(size, writepos))
    }

    ghost function Contents(): seq<byte>
      reads this, buffer
      requires Valid()
    {
      Queue(buffer[..], readpos, Norm(size, writepos))
    }

    constructor (requested: int)
      requires requested < 0x4000_0000
      ensures Valid() && Contents() == [] && size > requested && (size == 1 || size <= 2 * requested) && tcp == []
      ensures fresh(buffer)
    {
      var n, log := InitSize(requested);
      buffer, size, k := new byte[n](_ => 0), n, log;
      readpos, writepos, tcp, accepted := 0, 0, [], [];
    }

    /** sfifo_used. */
    method UsedBytes() returns (used: nat)
      requires Valid()
      ensures used == |Contents()| < size
    {
      UsedIsFill(size, k, readpos, writepos);
      used := Used(size, readpos, writepos);
    }

    /** sfifo_write: as much as there is space for, which is one byte less than the size. */
    method Write(buf: seq<byte>) returns (total: nat)
      requires Valid()
      modifies this`writepos, this`accepted, buffer
      ensures Valid()
      ensures total == Min(|buf|, size - 1 - |old(Contents())|)
      ensures Contents() == old(Contents()) + buf[..total] && accepted == old(accepted) + buf[..total]
    {
      var used := UsedBytes();
      total := Min(|buf|, size - 1 - used);
      Store(buf[..total]);
    }

    /** The copies of sfifo_write and the new write position. */
    method Store(data: seq<byte>)
      requires Valid() && |Contents()| + |data| < size
      modifies this`writepos, this`accepted, buffer
      ensures Valid() && Contents() == old(Contents()) + data && accepted == old(accepted) + data
    {
      var i, len := writepos, |data|;
      if i + len > size {
        len := len - (size - i);
        i := 0;
      }
      ghost var (before, wp) := (buffer[..], Norm(size, writepos));
      CopyIn(buffer, Norm(size, writepos), data);
      QueueAppends(before, buffer[..], readpos, wp, data);
      assert Norm(size, i + len) == Advance(size, wp, |data|);
      assert accepted + data == tcp + (Queue(before, readpos, wp) + data);
      writepos := i + len;
      accepted := accepted + data;
    }

    /** tcp_write of buffer[at..at+n) went well, and the read position follows. */
    method Sent(at: nat, n: nat, next: nat)
      requires Valid() && n <= |Contents()| && at + n <= size && (at == readpos || (readpos == size && at == 0))
      requires next == at + n || (at + n == size && next == 0)
      modifies this`readpos, this`tcp
      ensures Valid() && readpos == next && tcp == old(tcp) + old(Contents())[..n] && Contents() == old(Contents())[n..]
    {
      SentKeeps(buffer[..], readpos, Norm(size, writepos), at, n, next);
      ghost var q := Contents();
      assert accepted == (tcp + q[..n]) + q[n..];
      tcp := tcp + buffer[at..at + n];
      readpos := next;
    }

    /**
     send_data and send_msgdata: at most what the TCP send buffer takes, in up to two tcp_write calls, either
     of which may fail. Whatever happens, the bytes sent are the next ones and the rest stays queued.
     */
    method SendData(sndbuf: nat, ok1: bool, ok2: bool) returns (ghost n: nat)
      requires Valid() && sndbuf < U16
      modifies this`readpos, this`tcp
      ensures Valid() && n <= |old(Contents())|
      ensures tcp == old(tcp) + old(Contents())[..n] && Contents() == old(Contents())[n..]
      ensures var used := |old(Contents())|;
        var len := if sndbuf < used then sndbuf else used % U16;
        if old(readpos) + len <= size then
          n == (if ok2 then len else 0) && readpos == old(readpos) + n
        else if !ok1 then
          n == 0 && readpos == old(readpos)
        else if !ok2 then
          n == size - old(readpos) && readpos == 0
        else
          n == len && readpos == old(readpos) + len - size
    {
      n := 0;
      assert tcp + Contents()[..0] == tcp && Contents()[0..] == Contents();
      var used := UsedBytes();
      if used > 0 {
        var len := if sndbuf < used then sndbuf else used % U16;
        if readpos + len > size {
          if !ok1 {
            return;
          }
          n := SendWrapped(len, ok2);
        } else if ok2 {
          Sent(readpos, len, readpos + len);
          n := len;
        }
      }
    }

    /** The first tcp_write, up to the end of the buffer, went well; the second may not. */
    method SendWrapped(len: nat, ok2: bool) returns (ghost n: nat)
      requires Valid() && len <= |Contents()| && len < U16 && readpos + len > size
      modifies this`readpos, this`tcp
      ensures Valid() && n <= len
      ensures if ok2 then n == len && readpos == old(readpos) + len - size
              else n == size - old(readpos) && readpos == 0
      ensures tcp == old(tcp) + old(Contents())[..n] && Contents() == old(Contents())[n..]
    {
      ghost var (q, before) := (Contents(), tcp);
      var first := (size - readpos) % U16;
      assert first == size - readpos;
      n := first;
      Sent(readpos, first, 0);
      if ok2 {
        Sent(0, len - first, len - first);
        TwoSends(before, q, first, len);
        n := len;
      }
    }
  }

  lemma TwoSends(tcp: seq<byte>, q: seq<byte>, first: nat, len: nat)
    requires first <= len <= |q|
    ensures tcp + q[..first] + q[first..][..len - first] == tcp + q[..len] && q[first..][len - first..] == q[len..]
  {
  }

  /** Handing over the n bytes at `at` takes them from the front of the queue. */
  lemma SentKeeps(mem: seq<byte>, rp: nat, wp: nat, at: nat, n: nat, next: nat)
    requires Positions(|mem|, rp, wp) && n <= Fill(|mem|, rp, wp) < |mem| && at + n <= |mem|
    requires at == rp || (rp == |mem| && at == 0)
    requires next == at + n || (at + n == |mem| && next == 0)
    ensures Queue(mem, rp, wp)[..n] == mem[at..at + n]
    ensures Positions(|mem|, next, wp) && Fill(|mem|, next, wp) == Fill(|mem|, rp, wp) - n
    ensures Queue(mem, next, wp) == Queue(mem, rp, wp)[n..]
  {
    RunDrops(mem, rp, Fill(|mem|, rp, wp), n, next);
  }
}
