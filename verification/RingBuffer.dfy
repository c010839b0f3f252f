/**
 The software ring buffer in the recording direction: rb_write runs in an interrupt, as one atomic step,
 and may preempt rb_read before every byte it copies and between all of its steps.
 */
module RingBuffer {
  import opened Bytes
  import opened RingQueue

  /** The writes of the interrupts that arrive at one point of the reader. */
  type Arrivals = seq<seq<byte>>

  predicate Sizes(writes: Arrivals) {
    forall i :: 0 <= i < |writes| ==> |writes[i]| + SAFE_INTERVAL < U32
  }

  class Ring {
    const address: array<byte>
    const capacity: nat
    var wp: nat
    var rp: nat

    // every byte accepted by a write, and every byte a finished read has handed out
    ghost var accepted: seq<byte>
    ghost var delivered: seq<byte>
    // at how many points the other side has had its turn
    ghost var turns: nat

    ghost predicate Valid()
      reads this, address
    {
      && address.Length == capacity && capacity < U32 && Gap(capacity, rp, wp)
      && Fill(capacity, rp, wp) < capacity
      && accepted == delivered + Queue(address[..], rp, wp)
    }

    ghost function Contents(): seq<byte>
      reads this, address
      requires Valid()
    {
      Queue(address[..], rp, wp)
    }

    constructor (address: array<byte>)
      requires 0 < address.Length < U32
      ensures Valid() && this.address == address && Contents() == [] && delivered == []
    {
      this.address, capacity, wp, rp := address, address.Length, 0, 0;
      accepted, delivered, turns := [], [], 0;
    }

    method Clear()
      requires Valid()
      modifies this
      ensures Valid() && Contents() == [] && wp == rp == 0
    {
      wp, rp := 0, 0;
      accepted, delivered := [], [];
    }

    method GetFillSize() returns (n: nat)
      requires Valid()
      ensures n == |Contents()|
    {
      n := if wp >= rp then wp - rp else capacity - rp + wp;
    }

    method GetFreeSize() returns (n: nat)
      requires Valid()
      ensures n + |Contents()| == if capacity >= SAFE_INTERVAL then capacity - SAFE_INTERVAL else 0
    {
      SizesAddUp(capacity, rp, wp);
      var free := if wp >= rp then capacity - wp + rp else rp - wp;
      n := if free > SAFE_INTERVAL then free - SAFE_INTERVAL else 0;
    }

    /** rb_write: all or nothing. */
    method Write(buffer: seq<byte>, size: nat, count: nat) returns (written: nat)
      requires Valid() && size * count % U32 == |buffer| && |buffer| + SAFE_INTERVAL < U32
      modifies this`wp, this`accepted, address
      ensures Valid() && rp == old(rp) && delivered == old(delivered)
      ensures var fits := |old(Contents())| + |buffer| + SAFE_INTERVAL <= capacity;
        && written == (if fits then |buffer| else 0)
        && Contents() == (if fits then old(Contents()) + buffer else old(Contents()))
        && accepted == (if fits then old(accepted) + buffer else old(accepted))
    {
      if |buffer| == 0 {
        assert Contents() + buffer == Contents() && accepted + buffer == accepted;
        return 0;
      }
      if wp >= rp {
        if !(capacity - wp + rp >= |buffer| + SAFE_INTERVAL) {
          return 0;
        }
      } else {
        if !(rp - wp >= |buffer| + SAFE_INTERVAL) {
          return 0;
        }
      }
      Store(buffer);
      return |buffer|;
    }

    /** The accepting half of rb_write: copy, then move the write position. */
    method Store(buffer: seq<byte>)
      requires Valid() && buffer != [] && Fill(capacity, rp, wp) + |buffer| + SAFE_INTERVAL <= capacity
      modifies this`wp, this`accepted, address
      ensures Valid() && Contents() == old(Contents()) + buffer && accepted == old(accepted) + buffer
    {
      ghost var before := address[..];
      CopyIn(address, wp, buffer);
      QueueAppends(before, address[..], rp, wp, buffer);
      var next := if capacity - wp >= |buffer| then wp + |buffer| else |buffer| - (capacity - wp);
      if next >= capacity && rp != 0 {
        next := 0;
      }
      assert next == Advance(capacity, wp, |buffer|);
      assert accepted + buffer == delivered + (Queue(before, rp, wp) + buffer);
      wp := next;
      accepted := accepted + buffer;
    }

    /** The interrupts that arrive at one point: each writes once. The queue only grows at its end. */
    method Interrupts(writes: Arrivals)
      requires Valid() && Sizes(writes)
      modifies this`wp, this`accepted, this`turns, address
      ensures Valid()
      ensures old(Contents()) <= Contents()
      ensures old(accepted) <= accepted
      ensures turns == old(turns) + 1
    {
      var i := 0;
      while i < |writes|
        invariant Valid() && 0 <= i <= |writes|
        invariant old(Contents()) <= Contents()
        invariant old(accepted) <= accepted && turns == old(turns)
      {
        var n := Write(writes[i], |writes[i]|, 1);
        i := i + 1;
      }
      turns := turns + 1;
    }

    /**
     One memcpy of rb_read, byte by byte, interrupted before each byte: `from` is where the bytes
     q[done..done+len) of the queue snapshot start.
     */
    method CopyOut(buffer: array<byte>, from: nat, done: nat, len: nat, irq: nat -> Arrivals, ghost q: seq<byte>)
      requires Valid() && buffer != address && (forall t :: Sizes(irq(t)))
      requires q <= Contents() && done + len <= |q| && done + len <= buffer.Length && buffer[..done] == q[..done]
      requires (from == rp + done && from + len <= capacity) || from == rp + done - capacity
      modifies this`wp, this`accepted, this`turns, address, buffer
      ensures Valid() && q <= Contents() && old(accepted) <= accepted
      ensures buffer[..done + len] == q[..done + len]
      ensures turns == old(turns) + len
    {
      var j := 0;
      while j < len
        invariant 0 <= j <= len && turns == old(turns) + j
        invariant Valid() && q <= Contents() && old(accepted) <= accepted
        invariant buffer[..done + j] == q[..done + j]
      {
        CopyByte(buffer, from + j, done + j, irq(done + j), q);
        j := j + 1;
      }
    }

    /** Byte i of the queue, after what happens right before it is copied. */
    method CopyByte(buffer: array<byte>, from: nat, i: nat, now: Arrivals, ghost q: seq<byte>)
      requires Valid() && buffer != address && Sizes(now)
      requires q <= Contents() && i < |q| && i < buffer.Length && buffer[..i] == q[..i]
      requires (from == rp + i && from < capacity) || from == rp + i - capacity
      modifies this`wp, this`accepted, this`turns, address, buffer
      ensures Valid() && q <= Contents() && old(accepted) <= accepted
      ensures buffer[..i + 1] == q[..i + 1]
      ensures turns == old(turns) + 1
    {
      Interrupts(now);
      assert address[from] == Contents()[i] == q[i];
      buffer[i] := address[from];
    }

    /** The read position moves, with interrupts off. */
    method Publish(next: nat, n: nat, ghost q: seq<byte>)
      requires Valid() && n <= |q| && q <= Contents()
      requires next <= capacity && (next == rp + n || (next == rp + n - capacity && |q| >= capacity - rp))
      modifies this`rp, this`delivered
      ensures Valid() && delivered == old(delivered) + q[..n]
    {
      ReadPublished(address[..], rp, wp, q, n, next, delivered, accepted);
      rp := next;
      delivered := delivered + q[..n];
    }

    /** The copies of rb_read, in the order of its branches, and the new read position. */
    method Fetch(buffer: array<byte>, required: nat, snapshot: nat, irq: nat -> Arrivals, ghost q: seq<byte>)
      returns (n: nat, next: nat)
      requires Valid() && buffer != address && required <= buffer.Length && (forall t :: Sizes(irq(t)))
      requires Positions(capacity, rp, snapshot) && |q| == Fill(capacity, rp, snapshot)
      requires q <= Contents()
      modifies this`wp, this`accepted, this`turns, address, buffer
      ensures Valid() && q <= Contents()
      ensures n == Min(required, |q|) && buffer[..n] == q[..n]
      ensures next <= capacity && (next == rp + n || (next == rp + n - capacity && |q| >= capacity - rp))
      ensures old(accepted) <= accepted
      ensures turns == old(turns) + n
    {
      if snapshot >= rp {
        n := Min(required, snapshot - rp);
        CopyOut(buffer, rp, 0, n, irq, q);
        next := rp + n;
      } else if required > capacity - rp {
        n, next := FetchWrapped(buffer, required, snapshot, irq, q);
      } else {
        n := required;
        CopyOut(buffer, rp, 0, n, irq, q);
        next := rp + n;
      }
    }

    /** The two copies around the end of the array. */
    method FetchWrapped(buffer: array<byte>, required: nat, snapshot: nat, irq: nat -> Arrivals, ghost q: seq<byte>)
      returns (n: nat, next: nat)
      requires Valid() && buffer != address && required <= buffer.Length && (forall t :: Sizes(irq(t)))
      requires snapshot < rp <= capacity && capacity - rp < required && |q| == capacity - rp + snapshot
      requires q <= Contents()
      modifies this`wp, this`accepted, this`turns, address, buffer
      ensures Valid() && q <= Contents() && old(accepted) <= accepted
      ensures n == Min(required, |q|) && buffer[..n] == q[..n] && next == rp + n - capacity
      ensures turns == old(turns) + n
    {
      var first := capacity - rp;
      CopyOut(buffer, rp, 0, first, irq, q);
      if required - first > snapshot {
        CopyOut(buffer, 0, first, snapshot, irq, q);
        n, next := first + snapshot, snapshot;
      } else {
        CopyOut(buffer, 0, first, required - first, irq, q);
        n, next := required, required - first;
      }
    }

    /**
     rb_read under interrupts: one snapshot of the write position, up to two copies, then the read position
     moves. Whatever arrives in between, it delivers exactly the next bytes in order, at least as many as
     were there when it started.
     */
    method Read(buffer: array<byte>, size: nat, count: nat, irq: nat -> Arrivals) returns (n: nat)
      requires Valid() && buffer != address && size * count % U32 <= buffer.Length && forall t :: Sizes(irq(t))
      modifies this`wp, this`rp, this`accepted, this`delivered, this`turns, address, buffer
      ensures Valid()
      ensures Min(size * count % U32, |old(Contents())|) <= n <= size * count % U32
      ensures delivered == old(delivered) + buffer[..n]
      ensures old(accepted) <= accepted
      ensures turns == old(turns) + if size * count % U32 == 0 then 1 else n + 3
    {
      var required := size * count % U32;
      Interrupts(irq(U32));
      var snapshot := wp;
      ghost var q := Contents();
      if required == 0 {
        assert delivered + buffer[..0] == delivered;
        return 0;
      }
      Interrupts(irq(U32 + 1));
      var next: nat;
      n, next := Fetch(buffer, required, snapshot, irq, q);
      Interrupts(irq(U32 + 2));
      Publish(next, n, q);
    }
  }
}
