/**
 The ring buffer filled by a DMA channel. The engine advances one step at a time and stops at the pause
 address, which the software keeps four bytes behind its read position.
 */
module RingDmaWrite {
  import opened Bytes
  import opened RingQueue
  import opened Words

  /** How far the engine may still advance from `at` before it reaches `pause`. */
  function Distance(cap: nat, at: nat, pause: nat): nat
    requires at < cap && pause < cap
  {
    if pause >= at then pause - at else cap - at + pause
  }

  /** The pause position belonging to a read position. */
  function PauseFor(cap: nat, rp: nat): (p: nat)
    requires SAFE_INTERVAL <= cap && rp <= cap
    ensures p < cap
  {
    if rp >= SAFE_INTERVAL then rp - SAFE_INTERVAL else cap + rp - SAFE_INTERVAL
  }

  /** The engine never gets closer to the read position than the gap, in whole steps. */
  predicate Guarded(cap: nat, rp: nat, dst: nat, pause: nat, step: nat) {
    && SAFE_INTERVAL <= cap && 0 < step && Positions(cap, rp, dst) && pause < cap
    && Fill(cap, rp, dst) + Distance(cap, dst, pause) + SAFE_INTERVAL <= cap
    && Multiple(SAFE_INTERVAL, step) && Multiple(cap, step) && Multiple(cap - dst, step)
    && Multiple(Fill(cap, rp, dst), step) && Multiple(Distance(cap, dst, pause), step)
  }

  /** Between operations the engine may advance exactly over the free bytes. */
  predicate Settled(cap: nat, rp: nat, dst: nat, pause: nat, step: nat) {
    && Guarded(cap, rp, dst, pause, step)
    && Fill(cap, rp, dst) + Distance(cap, dst, pause) + SAFE_INTERVAL == cap
  }

  /** One engine step keeps the guard. */
  lemma StepKeeps(cap: nat, rp: nat, dst: nat, pause: nat, step: nat)
    requires Guarded(cap, rp, dst, pause, step) && dst != pause
    ensures var dst' := if dst + step == cap then 0 else dst + step;
      && dst + step <= cap && step < cap && dst' == Advance(cap, dst, step)
      && Fill(cap, rp, dst) + step + SAFE_INTERVAL <= cap
      && Guarded(cap, rp, dst', pause, step)
      && (Settled(cap, rp, dst, pause, step) ==> Settled(cap, rp, dst', pause, step))
  {
    assert Multiple(step, step);
    MultiplesAdd(Fill(cap, rp, dst), step, step);
  }

  /** Moving the pause address after the read position restores the full distance. */
  lemma PauseSettles(cap: nat, rp: nat, dst: nat, pause: nat, step: nat)
    requires Guarded(cap, rp, dst, pause, step)
    ensures Settled(cap, rp, dst, PauseFor(cap, rp), step)
  {
    MultiplesSubtract(cap, SAFE_INTERVAL, step);
    MultiplesSubtract(cap - SAFE_INTERVAL, Fill(cap, rp, dst), step);
  }

  /** Reading whole steps keeps the guard: the engine may only get more room. */
  lemma ReadKeeps(cap: nat, rp: nat, dst: nat, pause: nat, step: nat, n: nat, next: nat)
    requires Guarded(cap, rp, dst, pause, step) && n <= Fill(cap, rp, dst) && Multiple(n, step)
    requires next <= cap && (next == rp + n || (next == rp + n - cap && dst < rp))
    ensures Guarded(cap, next, dst, pause, step)
  {
    MultiplesSubtract(Fill(cap, rp, dst), n, step);
  }

  lemma NextFlattened(base: seq<byte>, chunks: seq<seq<byte>>, i: nat, most: seq<byte>) returns (more: seq<byte>)
    requires i < |chunks| && most == base + Flatten(chunks[..i])
    ensures more == base + Flatten(chunks[..i + 1]) && more == most + chunks[i]
  {
    FlattenSnoc(chunks, i);
    more := most + chunks[i];
  }

  class Ring {
    const address: array<byte>
    const capacity: nat
    const step: nat
    var wp: nat
    var rp: nat
    // the engine's registers: where it writes next and where it stops
    var dst: nat
    var pause: nat

    // every byte the engine has stored, and every byte a finished read has handed out
    ghost var produced: seq<byte>
    ghost var delivered: seq<byte>
    // at how many points the engine has had its turn
    ghost var turns: nat

    ghost predicate Shape()
      reads this
    {
      address.Length == capacity && capacity < U32 && Guarded(capacity, rp, dst, pause, step)
    }

    /** Holds at every moment, in the middle of a read too. */
    ghost predicate Safe()
      reads this, address
    {
      Shape() && produced == delivered + Queue(address[..], rp, dst)
    }

    /** Holds between operations. */
    ghost predicate Valid()
      reads this, address
    {
      Safe() && Settled(capacity, rp, dst, pause, step)
    }

    ghost function Contents(): seq<byte>
      reads this, address
      requires Shape()
    {
      Queue(address[..], rp, dst)
    }

    constructor (address: array<byte>, step: nat)
      requires SAFE_INTERVAL <= address.Length < U32 && 0 < step
      requires Multiple(SAFE_INTERVAL, step) && Multiple(address.Length, step)
      ensures Valid() && this.address == address && this.step == step
      ensures Contents() == [] && produced == [] && wp == rp == 0
    {
      this.address, capacity, this.step, wp, rp := address, address.Length, step, 0, 0;
      dst, pause := 0, address.Length - SAFE_INTERVAL;
      produced, delivered, turns := [], [], 0;
      new;
      MultiplesSubtract(capacity, SAFE_INTERVAL, step);
    }

    /** The engine is offered a chunk; at the pause address it does not take it. */
    method EngineStep(chunk: seq<byte>)
      requires Safe() && |chunk| == step
      modifies this`dst, this`produced, address
      ensures Safe() && old(Contents()) <= Contents()
      ensures produced == old(produced) + if old(dst) != pause then chunk else []
      ensures old(Valid()) ==> Valid()
    {
      if dst != pause {
        StepKeeps(capacity, rp, dst, pause, step);
        EngineStores(chunk);
      }
    }

    /** The engine's write of one chunk and the advance of its cursor. */
    method EngineStores(chunk: seq<byte>)
      requires address.Length == capacity && Gap(capacity, rp, dst) && |chunk| == step < capacity && 0 < step
      requires dst + step <= capacity && Fill(capacity, rp, dst) + step + SAFE_INTERVAL <= capacity
      requires produced == delivered + Queue(address[..], rp, dst)
      modifies this`dst, this`produced, address
      ensures dst == Advance(capacity, old(dst), step) && Gap(capacity, rp, dst) && Fill(capacity, rp, dst) < capacity
      ensures Queue(address[..], rp, dst) == old(Queue(address[..], rp, dst)) + chunk
      ensures produced == delivered + Queue(address[..], rp, dst) && produced == old(produced) + chunk
    {
      ghost var before := address[..];
      CopyIn(address, dst, chunk);
      QueueAppends(before, address[..], rp, dst, chunk);
      assert produced + chunk == delivered + (Queue(before, rp, dst) + chunk);
      dst := if dst + step == capacity then 0 else dst + step;
      produced := produced + chunk;
    }

    /** The same, when it has taken all of `most` or stands at the pause address. */
    method EngineOffered(chunk: seq<byte>, ghost most: seq<byte>)
      requires Safe() && |chunk| == step && produced <= most && (produced == most || dst == pause)
      modifies this`dst, this`produced, address
      ensures Safe() && old(Contents()) <= Contents() && old(produced) <= produced <= most + chunk
      ensures produced == most + chunk || dst == pause
      ensures old(Valid()) ==> Valid()
    {
      EngineStep(chunk);
    }

    /** The engine runs for a while: it takes all chunks, or stops at the pause address after some of them. */
    method Engine(chunks: seq<seq<byte>>)
      requires Safe() && forall i :: 0 <= i < |chunks| ==> |chunks[i]| == step
      modifies this`dst, this`produced, this`turns, address
      ensures Safe() && old(Contents()) <= Contents() && old(produced) <= produced
      ensures produced <= old(produced) + Flatten(chunks)
      ensures produced == old(produced) + Flatten(chunks) || dst == pause
      ensures old(Valid()) ==> Valid()
      ensures turns == old(turns) + 1
    {
      turns := turns + 1;
      var i := 0;
      ghost var most := produced;
      assert most == old(produced) + Flatten(chunks[..0]);
      while i < |chunks|
        invariant 0 <= i <= |chunks| && Safe() && old(Contents()) <= Contents() && old(produced) <= produced
        invariant produced <= most && (produced == most || dst == pause)
        invariant most == old(produced) + Flatten(chunks[..i])
        invariant old(Valid()) ==> Valid()
        modifies this`dst, this`produced, address
      {
        EngineOffered(chunks[i], most);
        most := NextFlattened(old(produced), chunks, i, most);
        i := i + 1;
      }
      assert chunks[..|chunks|] == chunks;
    }

    /** One memcpy of the read, byte by byte, with the engine running before each byte. */
    method CopyOut(buffer: array<byte>, from: nat, done: nat, len: nat, dma: nat -> seq<seq<byte>>, ghost q: seq<byte>)
      requires Safe() && buffer != address && Chunks(dma, step)
      requires q <= Contents() && done + len <= |q| && done + len <= buffer.Length && buffer[..done] == q[..done]
      requires (from == rp + done && from + len <= capacity) || from == rp + done - capacity
      modifies this`dst, this`produced, this`turns, address, buffer
      ensures Safe() && q <= Contents() && old(produced) <= produced
      ensures buffer[..done + len] == q[..done + len]
      ensures turns == old(turns) + len
    {
      var j := 0;
      while j < len
        invariant 0 <= j <= len && turns == old(turns) + j
        invariant Safe() && q <= Contents() && old(produced) <= produced
        invariant buffer[..done + j] == q[..done + j]
      {
        CopyByte(buffer, from + j, done + j, dma(done + j), q);
        j := j + 1;
      }
    }

    /** Byte i of the queue, after what happens right before it is copied. */
    method CopyByte(buffer: array<byte>, from: nat, i: nat, now: seq<seq<byte>>, ghost q: seq<byte>)
      requires Safe() && buffer != address && (forall i :: 0 <= i < |now| ==> |now[i]| == step)
      requires q <= Contents() && i < |q| && i < buffer.Length && buffer[..i] == q[..i]
      requires (from == rp + i && from < capacity) || from == rp + i - capacity
      modifies this`dst, this`produced, this`turns, address, buffer
      ensures Safe() && q <= Contents() && old(produced) <= produced
      ensures buffer[..i + 1] == q[..i + 1]
      ensures turns == old(turns) + 1
    {
      Engine(now);
      assert address[from] == Contents()[i] == q[i];
      buffer[i] := address[from];
    }

    /** The read position moves; the pause address does not yet. */
    method Publish(next: nat, n: nat, ghost q: seq<byte>)
      requires Safe() && n <= |q| && q <= Contents() && Multiple(n, step)
      requires next <= capacity && (next == rp + n || (next == rp + n - capacity && |q| >= capacity - rp))
      modifies this`rp, this`delivered
      ensures Safe() && delivered == old(delivered) + q[..n]
    {
      ReadPublished(address[..], rp, dst, q, n, next, delivered, produced);
      ReadKeeps(capacity, rp, dst, pause, step, n, next);
      rp := next;
      delivered := delivered + q[..n];
    }

    /** The last step of a read: the pause address follows the read position. */
    method MovePause()
      requires Safe()
      modifies this`pause
      ensures Valid()
    {
      PauseSettles(capacity, rp, dst, pause, step);
      pause := if rp >= SAFE_INTERVAL then rp - SAFE_INTERVAL else capacity + rp - SAFE_INTERVAL;
    }

    /** Everything after the cursor was sampled. */
    method ReadSampled(buffer: array<byte>, required: nat, snapshot: nat, dma: nat -> seq<seq<byte>>,
                       ghost q: seq<byte>)
      returns (n: nat)
      requires Safe() && buffer != address && required <= buffer.Length && Chunks(dma, step)
      requires Positions(capacity, rp, snapshot) && |q| == Fill(capacity, rp, snapshot) && q <= Contents()
      requires Multiple(required, step) && Multiple(|q|, step)
      modifies this`rp, this`dst, this`pause, this`produced, this`delivered, this`turns, address, buffer
      ensures Valid() && n == Min(required, |q|)
      ensures delivered == old(delivered) + buffer[..n] && old(produced) <= produced
      ensures turns == old(turns) + n + 3
    {
      Engine(dma(U32 + 1));
      var next: nat;
      n, next := Fetch(buffer, required, snapshot, dma, q);
      Conclude(next, n, dma, q);
    }

    /** The read position moves and then the pause address, with the engine running before each. */
    method Conclude(next: nat, n: nat, dma: nat -> seq<seq<byte>>, ghost q: seq<byte>)
      requires Safe() && Chunks(dma, step) && n <= |q| && q <= Contents() && Multiple(n, step)
      requires next <= capacity && (next == rp + n || (next == rp + n - capacity && |q| >= capacity - rp))
      modifies this`rp, this`dst, this`pause, this`produced, this`delivered, this`turns, address
      ensures Valid() && delivered == old(delivered) + q[..n] && old(produced) <= produced
      ensures turns == old(turns) + 2
    {
      Engine(dma(U32 + 2));
      Publish(next, n, q);
      Engine(dma(U32 + 3));
      MovePause();
    }

    /** The copies of the read, in the order of its branches, and the new read position. */
    method Fetch(buffer: array<byte>, required: nat, snapshot: nat, dma: nat -> seq<seq<byte>>, ghost q: seq<byte>)
      returns (n: nat, next: nat)
      requires Safe() && buffer != address && required <= buffer.Length && Chunks(dma, step)
      requires Positions(capacity, rp, snapshot) && |q| == Fill(capacity, rp, snapshot) && q <= Contents()
      modifies this`dst, this`produced, this`turns, address, buffer
      ensures Safe() && q <= Contents() && old(produced) <= produced
      ensures n == Min(required, |q|) && buffer[..n] == q[..n]
      ensures next <= capacity && (next == rp + n || (next == rp + n - capacity && |q| >= capacity - rp))
      ensures turns == old(turns) + n
    {
      if snapshot >= rp {
        n := Min(required, snapshot - rp);
        CopyOut(buffer, rp, 0, n, dma, q);
        next := rp + n;
      } else if required > capacity - rp {
        n, next := FetchWrapped(buffer, required, snapshot, dma, q);
      } else {
        n := required;
        CopyOut(buffer, rp, 0, n, dma, q);
        next := rp + n;
      }
    }

    /** The two copies around the end of the array. */
    method FetchWrapped(buffer: array<byte>, required: nat, snapshot: nat, dma: nat -> seq<seq<byte>>,
                        ghost q: seq<byte>)
      returns (n: nat, next: nat)
      requires Safe() && buffer != address && required <= buffer.Length && Chunks(dma, step)
      requires snapshot < rp <= capacity && capacity - rp < required && |q| == capacity - rp + snapshot
      requires q <= Contents()
      modifies this`dst, this`produced, this`turns, address, buffer
      ensures Safe() && q <= Contents() && old(produced) <= produced
      ensures n == Min(required, |q|) && buffer[..n] == q[..n] && next == rp + n - capacity
      ensures turns == old(turns) + n
    {
      var first := capacity - rp;
      CopyOut(buffer, rp, 0, first, dma, q);
      if required - first > snapshot {
        CopyOut(buffer, 0, first, snapshot, dma, q);
        n, next := first + snapshot, snapshot;
      } else {
        CopyOut(buffer, 0, first, required - first, dma, q);
        n, next := required, required - first;
      }
    }

    /**
     rb_read_dma_write with the engine running all along: it samples the engine's cursor, copies, moves the
     read position and only then the pause address. The engine never overwrites an unread byte. It has its turn
     before every byte and between all steps.
     */
    method Read(buffer: array<byte>, size: nat, count: nat, dma: nat -> seq<seq<byte>>) returns (n: nat)
      requires Valid() && buffer != address && Chunks(dma, step)
      requires size * count % U32 <= buffer.Length && Multiple(size * count % U32, step)
      modifies this`wp, this`rp, this`dst, this`pause, this`produced, this`delivered, this`turns, address, buffer
      ensures Valid()
      ensures Min(size * count % U32, |old(Contents())|) <= n <= size * count % U32
      ensures delivered == old(delivered) + buffer[..n] && old(produced) <= produced
      ensures turns == old(turns) + if size * count % U32 == 0 then 0 else n + 4
    {
      var required := size * count % U32;
      if required == 0 {
        assert delivered + buffer[..0] == delivered;
        return 0;
      }
      Engine(dma(U32));
      wp := dst;
      var snapshot := wp;
      ghost var q := Contents();
      n := ReadSampled(buffer, required, snapshot, dma, q);
    }

    method GetFillSize() returns (n: nat)
      requires Valid()
      modifies this`wp
      ensures Valid() && n == |Contents()|
    {
      wp := dst;
      n := if wp >= rp then wp - rp else capacity - rp + wp;
    }

    method GetFreeSize() returns (n: nat)
      requires Valid()
      modifies this`wp
      ensures Valid() && n == Distance(capacity, dst, pause) == capacity - SAFE_INTERVAL - |Contents()|
    {
      wp := dst;
      var free := if wp >= rp then capacity - wp + rp else rp - wp;
      n := if free > SAFE_INTERVAL then free - SAFE_INTERVAL else 0;
    }

    /**
     rb_clear_dma_write resets the positions and the pause address but not the engine. The ring is safe
     afterwards exactly when the engine stands no more than the usable capacity from the start, and empty
     exactly when it stands at the start.
     */
    method Clear()
      requires Safe()
      modifies this`wp, this`rp, this`pause
      ensures wp == rp == 0 && pause == capacity - SAFE_INTERVAL && dst == old(dst) < capacity
      ensures Guarded(capacity, rp, dst, pause, step) <==> dst + SAFE_INTERVAL <= capacity
      ensures Fill(capacity, rp, dst) == 0 <==> dst == 0
    {
      MultiplesSubtract(capacity, capacity - dst, step);
      MultiplesSubtract(capacity, SAFE_INTERVAL, step);
      if dst + SAFE_INTERVAL <= capacity {
        MultiplesSubtract(capacity - SAFE_INTERVAL, dst, step);
      }
      wp, rp := 0, 0;
      pause := capacity - SAFE_INTERVAL;
    }
  }

  /** The engine is offered whole chunks at every moment. */
  ghost predicate Chunks(dma: nat -> seq<seq<byte>>, step: nat) {
    forall t: nat, i :: 0 <= i < |dma(t)| ==> |dma(t)[i]| == step
  }
}
