/**
 The ring buffer drained by a DMA channel. The engine emits one step at a time and stops at the pause
 address, which the software moves to the write position after all of a write has been copied.
 */
module RingDmaRead {
  import opened Bytes
  import opened RingQueue

  /** The engine's position and pause address, in whole steps. */
  predicate Aligned(cap: nat, src: nat, pause: nat, step: nat) {
    && 0 < step && src < cap && Gap(cap, src, pause) && Fill(cap, src, pause) < cap
    && Multiple(cap, step) && Multiple(cap - src, step) && Multiple(Fill(cap, src, pause), step)
  }

  lemma QueueStarts(mem: seq<byte>, src: nat, pause: nat, n: nat)
    requires Positions(|mem|, src, pause) && n <= Fill(|mem|, src, pause) && src + n <= |mem|
    ensures Queue(mem, src, pause)[..n] == mem[src..src + n]
  {
  }

  /** One engine step keeps the alignment and takes one step's worth from the queue. */
  lemma StepKeeps(mem: seq<byte>, src: nat, pause: nat, step: nat)
    requires Aligned(|mem|, src, pause, step) && src != pause
    ensures var next := if src + step == |mem| then 0 else src + step;
      && src + step <= |mem| && step <= Fill(|mem|, src, pause)
      && Aligned(|mem|, next, pause, step)
      && Queue(mem, src, pause) == mem[src..src + step] + Queue(mem, next, pause)
      && |Queue(mem, next, pause)| <= |Queue(mem, src, pause)|
  {
    var next := if src + step == |mem| then 0 else src + step;
    StepFits(|mem|, src, pause, step);
    QueueSplits(mem, src, pause, step, next);
  }

  lemma QueueSplits(mem: seq<byte>, src: nat, pause: nat, n: nat, next: nat)
    requires Positions(|mem|, src, pause) && n <= Fill(|mem|, src, pause) < |mem| && src + n <= |mem|
    requires src < |mem| && next == if src + n == |mem| then 0 else src + n
    ensures Positions(|mem|, next, pause) && Fill(|mem|, next, pause) <= Fill(|mem|, src, pause)
    ensures Queue(mem, src, pause) == mem[src..src + n] + Queue(mem, next, pause)
  {
    RunDrops(mem, src, Fill(|mem|, src, pause), n, next);
    QueueStarts(mem, src, pause, n);
    var q := Queue(mem, src, pause);
    assert q == q[..n] + q[n..];
  }

  /** A queue that is not empty holds a whole step, in one piece. */
  lemma StepFits(cap: nat, src: nat, pause: nat, step: nat)
    requires Aligned(cap, src, pause, step) && src != pause
    ensures src + step <= cap && step <= Fill(cap, src, pause)
    ensures Aligned(cap, if src + step == cap then 0 else src + step, pause, step)
  {
  }

  /** The step on the whole stream: what was accepted is what was emitted and what is queued. */
  lemma StepEmits(mem: seq<byte>, src: nat, pause: nat, step: nat, emitted: seq<byte>, accepted: seq<byte>,
                  next: nat, emitted': seq<byte>)
    requires Aligned(|mem|, src, pause, step) && src != pause && accepted == emitted + Queue(mem, src, pause)
    requires src + step <= |mem| && next == if src + step == |mem| then 0 else src + step
    requires emitted' == emitted + mem[src..src + step]
    ensures Aligned(|mem|, next, pause, step) && accepted == emitted' + Queue(mem, next, pause)
    ensures |Queue(mem, next, pause)| <= |Queue(mem, src, pause)| && emitted <= emitted'
  {
    StepKeeps(mem, src, pause, step);
  }

  /** A byte stored in the free part is not in the queue. */
  lemma StoredOutside(mem: seq<byte>, src: nat, pause: nat, j: nat, b: byte)
    requires Gap(|mem|, src, pause) && Fill(|mem|, src, pause) + j < |mem|
    ensures Queue(mem[At(|mem|, pause, j) := b], src, pause) == Queue(mem, src, pause)
  {
    var p := At(|mem|, pause, j);
    forall i | 0 <= i < Fill(|mem|, src, pause)
      ensures At(|mem|, src, i) != p
    {
    }
  }

  lemma NextMultiple(i: nat, step: nat)
    ensures (i + 1) * step == i * step + step
  {
  }

  class Ring {
    const address: array<byte>
    const capacity: nat
    const step: nat
    var wp: nat
    var rp: nat
    // the engine's registers: what it emits next and where it stops
    var src: nat
    var pause: nat

    // every byte of an accepted write, and every byte the engine has emitted
    ghost var accepted: seq<byte>
    ghost var emitted: seq<byte>
    // at how many points the engine has had its turn
    ghost var turns: nat

    /** Holds at every moment, in the middle of a write too. */
    ghost predicate Safe()
      reads this, address
    {
      && address.Length == capacity && capacity < U32 && Aligned(capacity, src, pause, step)
      && accepted == emitted + Queue(address[..], src, pause)
    }

    /** Holds between operations. */
    ghost predicate Valid()
      reads this, address
    {
      Safe() && pause == wp
    }

    /** What the engine may still emit. */
    ghost function Contents(): seq<byte>
      reads this, address
      requires Safe()
    {
      Queue(address[..], src, pause)
    }

    constructor (address: array<byte>, step: nat)
      requires 0 < address.Length < U32 && 0 < step && Multiple(address.Length, step)
      ensures Valid() && this.address == address && this.step == step
      ensures Contents() == [] && accepted == [] && wp == rp == 0
    {
      this.address, capacity, this.step, wp, rp := address, address.Length, step, 0, 0;
      src, pause := 0, 0;
      accepted, emitted, turns := [], [], 0;
    }

    /** The engine emits one step's worth, unless it stands at the pause address. */
    method EngineStep()
      requires Safe()
      modifies this`src, this`emitted
      ensures Safe() && |Contents()| <= |old(Contents())| && old(emitted) <= emitted
      ensures |emitted| == |old(emitted)| + if old(src) != pause then step else 0
    {
      if src != pause {
        StepFits(capacity, src, pause, step);
        var next := if src + step == capacity then 0 else src + step;
        ghost var out := emitted + address[..][src..src + step];
        StepEmits(address[..], src, pause, step, emitted, accepted, next, out);
        emitted, src := out, next;
      }
    }

    /** The engine runs for n steps, or to the pause address. */
    method Engine(n: nat)
      requires Safe()
      modifies this`src, this`emitted, this`turns
      ensures Safe() && |Contents()| <= |old(Contents())| && old(emitted) <= emitted
      ensures |emitted| == |old(emitted)| + n * step || (src == pause && |emitted| <= |old(emitted)| + n * step)
      ensures turns == old(turns) + 1
    {
      var i := 0;
      ghost var most := |emitted|;
      while i < n
        invariant i <= n && Safe() && |Contents()| <= |old(Contents())| && old(emitted) <= emitted
        invariant |emitted| <= most && (|emitted| == most || src == pause)
        invariant turns == old(turns) && most == |old(emitted)| + i * step
      {
        EngineStep();
        NextMultiple(i, step);
        i, most := i + 1, most + step;
      }
      turns := turns + 1;
    }

    /**
     One memcpy of the write, byte by byte, with the engine running before each byte: data[done..done+len)
     goes to `at` and the places after it, all of them outside the queue.
     */
    method CopyPart(at: nat, data: seq<byte>, done: nat, len: nat, dma: nat -> nat)
      requires Safe() && done + len <= |data| && |Contents()| + |data| < capacity
      requires (at == pause + done && at + len <= capacity) || at == pause + done - capacity
      requires forall i :: 0 <= i < done ==> address[At(capacity, pause, i)] == data[i]
      modifies this`src, this`emitted, this`turns, address
      ensures Safe() && |Contents()| <= |old(Contents())| && old(emitted) <= emitted
      ensures forall i :: 0 <= i < done + len ==> address[At(capacity, pause, i)] == data[i]
      ensures turns == old(turns) + len
    {
      var j := 0;
      while j < len
        invariant 0 <= j <= len && turns == old(turns) + j
        invariant Safe() && |Contents()| <= |old(Contents())| && old(emitted) <= emitted
        invariant forall i :: 0 <= i < done + j ==> address[At(capacity, pause, i)] == data[i]
      {
        Engine(dma(done + j));
        StoredOutside(address[..], src, pause, done + j, data[done + j]);
        ghost var before := address[..];
        address[at + j] := data[done + j];
        assert address[..] == before[At(capacity, pause, done + j) := data[done + j]];
        j := j + 1;
      }
    }

    /**
     rb_write_dma_read with the engine running all along: it samples the engine's cursor, copies both
     halves, and moves the pause address last. What the engine emits is always a prefix of what was accepted.
     */
    method Write(data: seq<byte>, size: nat, count: nat, dma: nat -> nat) returns (written: nat)
      requires Valid() && size * count % U32 == |data| && |data| + SAFE_INTERVAL < U32 && Multiple(|data|, step)
      modifies this`wp, this`rp, this`src, this`pause, this`accepted, this`emitted, this`turns, address
      ensures Valid() && old(emitted) <= emitted
      ensures written == |data| || written == 0
      ensures |old(Contents())| + |data| + SAFE_INTERVAL <= capacity ==> written == |data|
      ensures accepted == if written == 0 then old(accepted) else old(accepted) + data
      ensures turns == old(turns) + if written > 0 then |data| + 3 else if |data| > 0 then 1 else 0
    {
      if |data| == 0 {
        return 0;
      }
      Engine(dma(U32));
      rp := src;
      var fits := if wp >= rp then capacity - wp + rp >= |data| + SAFE_INTERVAL else rp - wp >= |data| + SAFE_INTERVAL;
      if !fits {
        return 0;
      }
      Engine(dma(U32 + 1));
      Store(data, dma);
      written := |data|;
    }

    /** The copies of an accepted write, and the new write position. */
    method CopyBoth(data: seq<byte>, dma: nat -> nat)
      requires Valid() && |Contents()| + |data| + SAFE_INTERVAL <= capacity
      modifies this`wp, this`src, this`emitted, this`turns, address
      ensures Safe() && |Contents()| <= |old(Contents())| && old(emitted) <= emitted
      ensures forall i :: 0 <= i < |data| ==> address[At(capacity, pause, i)] == data[i]
      ensures wp == if old(wp) + |data| <= capacity then old(wp) + |data| else old(wp) + |data| - capacity
      ensures turns == old(turns) + |data|
    {
      if capacity - wp >= |data| {
        CopyPart(wp, data, 0, |data|, dma);
        wp := wp + |data|;
      } else {
        var first := capacity - wp;
        CopyPart(wp, data, 0, first, dma);
        wp := |data| - first;
        CopyPart(0, data, first, |data| - first, dma);
      }
    }

    /** The pause address moves to the write position: the whole write becomes visible to the engine at once. */
    method Release(ghost data: seq<byte>)
      requires Safe() && |Contents()| + |data| + SAFE_INTERVAL <= capacity && Multiple(|data|, step)
      requires forall i :: 0 <= i < |data| ==> address[At(capacity, pause, i)] == data[i]
      requires |data| < capacity && wp == Advance(capacity, pause, |data|)
      modifies this`pause, this`accepted
      ensures Valid() && accepted == old(accepted) + data
    {
      QueueAppends(address[..], address[..], src, pause, data);
      MultiplesAdd(Fill(capacity, src, pause), |data|, step);
      assert accepted + data == emitted + (Queue(address[..], src, pause) + data);
      pause := wp;
      accepted := accepted + data;
    }

    /** The accepting half of the write; `rp` is the sampled engine position. */
    method Store(data: seq<byte>, dma: nat -> nat)
      requires Valid() && data != [] && |Contents()| + |data| + SAFE_INTERVAL <= capacity && Multiple(|data|, step)
      requires Positions(capacity, rp, wp) && Fill(capacity, rp, wp) + |data| + SAFE_INTERVAL <= capacity
      modifies this`wp, this`src, this`pause, this`accepted, this`emitted, this`turns, address
      ensures Valid() && old(emitted) <= emitted && accepted == old(accepted) + data
      ensures turns == old(turns) + |data| + 1
    {
      CopyBoth(data, dma);
      if wp >= capacity && rp != 0 {
        wp := 0;
      }
      Engine(dma(U32 + 2));
      Release(data);
    }

    method GetFillSize() returns (n: nat)
      requires Valid()
      modifies this`rp
      ensures Valid() && n == |Contents()|
    {
      rp := src;
      n := if wp >= rp then wp - rp else capacity - rp + wp;
    }

    method GetFreeSize() returns (n: nat)
      requires Valid()
      modifies this`rp
      ensures Valid() && n + |Contents()| == if capacity >= SAFE_INTERVAL then capacity - SAFE_INTERVAL else 0
    {
      rp := src;
      SizesAddUp(capacity, rp, wp);
      var free := if wp >= rp then capacity - wp + rp else rp - wp;
      n := if free > SAFE_INTERVAL then free - SAFE_INTERVAL else 0;
    }

    /**
     rb_clear_dma_read resets the software positions only. The ring is settled and empty afterwards exactly
     when the engine stood, paused, at the start of the buffer.
     */
    method Clear()
      requires Safe()
      modifies this`wp, this`rp
      ensures wp == rp == 0 && src == old(src) < capacity && pause == old(pause) < capacity
      ensures pause == wp && Fill(capacity, src, wp) == 0 <==> src == 0 && pause == 0
    {
      wp, rp := 0, 0;
    }
  }
}
