/**
 What the audio ring buffers have in common: a read and a write position in a circular byte array, and the
 queue of unread bytes between them. The read position may rest at the capacity, which means 0.
 */
module RingQueue {
  import opened Bytes

  // The gap the writer keeps so that a full buffer does not look empty.
  const SAFE_INTERVAL: nat := 4

  /** Positions the buffers ever hold: the write position wraps at once, the read position lazily. */
  predicate Positions(cap: nat, rp: nat, wp: nat) {
    rp <= cap && wp < cap
  }

  function Fill(cap: nat, rp: nat, wp: nat): (n: nat)
    requires Positions(cap, rp, wp)
    ensures n <= cap
  {
    if wp >= rp then wp - rp else cap - rp + wp
  }

  /** What rb_get_free_size reports. */
  function Free(cap: nat, rp: nat, wp: nat): nat
    requires Positions(cap, rp, wp)
  {
    var free := if wp >= rp then cap - wp + rp else rp - wp;
    if free > SAFE_INTERVAL then free - SAFE_INTERVAL else 0
  }

  /** The byte i places after position p. */
  function At(cap: nat, p: nat, i: nat): (k: nat)
    requires p <= cap && i < cap
    ensures k < cap
  {
    if p + i < cap then p + i else p + i - cap
  }

  /** The n bytes from position p on. */
  function Run(mem: seq<byte>, p: nat, n: nat): (q: seq<byte>)
    requires p <= |mem| && n <= |mem|
    ensures |q| == n
    ensures forall i :: 0 <= i < n ==> q[i] == mem[At(|mem|, p, i)]
  {
    seq(n, i requires 0 <= i < n => mem[At(|mem|, p, i)])
  }

  /** The unread bytes, oldest first. */
  function Queue(mem: seq<byte>, rp: nat, wp: nat): (q: seq<byte>)
    requires Positions(|mem|, rp, wp)
    ensures |q| == Fill(|mem|, rp, wp)
  {
    Run(mem, rp, Fill(|mem|, rp, wp))
  }

  /** The invariant of the positions: the gap is never given away. */
  predicate Gap(cap: nat, rp: nat, wp: nat) {
    Positions(cap, rp, wp) && (Fill(cap, rp, wp) + SAFE_INTERVAL <= cap || Fill(cap, rp, wp) == 0)
  }

  /** The reported sizes add up to the usable capacity. */
  lemma SizesAddUp(cap: nat, rp: nat, wp: nat)
    requires Gap(cap, rp, wp)
    ensures Fill(cap, rp, wp) + Free(cap, rp, wp) == if cap >= SAFE_INTERVAL then cap - SAFE_INTERVAL else 0
  {
  }

  /** The writer's acceptance test, in 32-bit arithmetic. */
  predicate Fits(cap: nat, rp: nat, wp: nat, n: nat)
    requires Positions(cap, rp, wp)
  {
    var remain := if wp >= rp then cap - wp + rp else rp - wp;
    remain >= (n + SAFE_INTERVAL) % U32
  }

  /**
   A nonempty write is accepted exactly when it is not larger than the reported free size, as long as
   adding the gap to its size does not overflow; a size within four of 2^32 always slips through.
   */
  lemma AcceptedIffFree(cap: nat, rp: nat, wp: nat, n: nat)
    requires Gap(cap, rp, wp) && SAFE_INTERVAL <= cap < U32 - SAFE_INTERVAL && 0 < n < U32
    ensures (Fits(cap, rp, wp, n) <==> n <= Free(cap, rp, wp)) <==> n + SAFE_INTERVAL < U32
  {
    if n + SAFE_INTERVAL >= U32 {
      assert (n + SAFE_INTERVAL) % U32 == n + SAFE_INTERVAL - U32;
    }
  }

  /** Where the write position goes: it never rests at the capacity. */
  function Advance(cap: nat, wp: nat, n: nat): nat
    requires wp < cap && n < cap
  {
    if wp + n < cap then wp + n else wp + n - cap
  }

  /** The new bytes are in place from position wp on and nothing else changed. */
  ghost predicate Appended(before: seq<byte>, after: seq<byte>, wp: nat, data: seq<byte>)
    requires |before| == |after| && wp < |before| && |data| <= |before|
  {
    && (forall j :: 0 <= j < |data| ==> after[At(|after|, wp, j)] == data[j])
    && (forall p :: 0 <= p < |before| && !Within(|before|, wp, |data|, p) ==> after[p] == before[p])
  }

  /** Position p is one of the n positions from wp on. */
  predicate Within(cap: nat, wp: nat, n: nat, p: nat) {
    wp <= p < wp + n || p + cap < wp + n
  }

  /** Bytes stored right behind a run extend it. */
  lemma RunAppends(before: seq<byte>, after: seq<byte>, p: nat, n: nat, wp: nat, data: seq<byte>)
    requires |before| == |after| && p <= |before| && n + |data| <= |before| && wp < |before|
    requires data != [] ==> wp == At(|before|, p, n)
    requires Appended(before, after, wp, data)
    ensures Run(after, p, n + |data|) == Run(before, p, n) + data
  {
    var (cap, q, q') := (|before|, Run(before, p, n), Run(after, p, n + |data|));
    forall i | 0 <= i < |q'|
      ensures q'[i] == (q + data)[i]
    {
      if i < n {
        assert !Within(cap, wp, |data|, At(cap, p, i));
      } else {
        assert At(cap, p, i) == At(cap, wp, i - n);
      }
    }
  }

  /** Dropping k bytes of a run starts it k places later; both names of position 0 will do. */
  lemma RunDrops(mem: seq<byte>, p: nat, n: nat, k: nat, p': nat)
    requires p <= |mem| && k <= n <= |mem|
    requires p' <= |mem| && (p' == p + k || p' == p + k - |mem|)
    ensures Run(mem, p', n - k) == Run(mem, p, n)[k..]
  {
    var (q, q') := (Run(mem, p, n), Run(mem, p', n - k));
    forall i | 0 <= i < |q'|
      ensures q'[i] == q[k + i]
    {
      assert At(|mem|, p', i) == At(|mem|, p, k + i);
    }
  }

  /** Copies into the buffer from a position on, in two halves if the end of the array is in between. */
  method CopyIn(address: array<byte>, at: nat, data: seq<byte>)
    requires at < address.Length && |data| <= address.Length
    modifies address
    ensures Appended(old(address[..]), address[..], at, data)
  {
    var first := Min(|data|, address.Length - at);
    forall j | 0 <= j < first {
      address[at + j] := data[j];
    }
    forall j | 0 <= j < |data| - first {
      address[j] := data[first + j];
    }
  }

  /** A write that leaves a byte free appends to the queue. */
  lemma QueueAppends(before: seq<byte>, after: seq<byte>, rp: nat, wp: nat, data: seq<byte>)
    requires |before| == |after| && Positions(|before|, rp, wp)
    requires Fill(|before|, rp, wp) + |data| < |before|
    requires Appended(before, after, wp, data)
    ensures var wp' := Advance(|before|, wp, |data|);
      && Positions(|before|, rp, wp') && Fill(|before|, rp, wp') == Fill(|before|, rp, wp) + |data|
      && Queue(after, rp, wp') == Queue(before, rp, wp) + data
  {
    RunAppends(before, after, rp, Fill(|before|, rp, wp), wp, data);
  }

  /** Reading n bytes drops them from the queue. */
  lemma QueueDrops(mem: seq<byte>, rp: nat, wp: nat, n: nat, rp': nat)
    requires Positions(|mem|, rp, wp) && n <= Fill(|mem|, rp, wp) < |mem|
    requires rp' <= |mem| && (rp' == rp + n || (rp' == rp + n - |mem| && wp < rp))
    ensures Positions(|mem|, rp', wp) && Fill(|mem|, rp', wp) == Fill(|mem|, rp, wp) - n
    ensures Queue(mem, rp', wp) == Queue(mem, rp, wp)[n..]
  {
    RunDrops(mem, rp, Fill(|mem|, rp, wp), n, rp');
  }

  /** Publishing a read of the first n bytes of a snapshot q: they move from the queue to what was delivered. */
  lemma ReadPublished(mem: seq<byte>, rp: nat, wp: nat, q: seq<byte>, n: nat, next: nat, delivered: seq<byte>,
                      all: seq<byte>)
    requires Gap(|mem|, rp, wp) && Fill(|mem|, rp, wp) < |mem| && all == delivered + Queue(mem, rp, wp)
    requires q <= Queue(mem, rp, wp) && n <= |q|
    requires next <= |mem| && (next == rp + n || (next == rp + n - |mem| && |q| >= |mem| - rp))
    ensures Gap(|mem|, next, wp) && Fill(|mem|, next, wp) == Fill(|mem|, rp, wp) - n
    ensures all == (delivered + q[..n]) + Queue(mem, next, wp)
    ensures next == rp + n || (next == rp + n - |mem| && wp < rp)
  {
    QueueDrops(mem, rp, wp, n, next);
    HandedOver(delivered, Queue(mem, rp, wp), q, n);
  }

  lemma HandedOver(delivered: seq<byte>, queue: seq<byte>, q: seq<byte>, n: nat)
    requires q <= queue && n <= |q|
    ensures delivered + queue == (delivered + q[..n]) + queue[n..]
  {
    assert queue == q[..n] + queue[n..];
  }

  /** n is a whole number of steps. */
  predicate Multiple(n: nat, step: nat)
    requires 0 < step
  {
    n == 0 || (n >= step && Multiple(n - step, step))
  }

  lemma {:induction false} MultiplesAdd(a: nat, b: nat, step: nat)
    requires 0 < step && Multiple(a, step) && Multiple(b, step)
    ensures Multiple(a + b, step)
  {
    if b > 0 {
      MultiplesAdd(a, b - step, step);
    }
  }

  lemma {:induction false} MultiplesSubtract(a: nat, b: nat, step: nat)
    requires 0 < step && b <= a && Multiple(a, step) && Multiple(b, step)
    ensures Multiple(a - b, step)
  {
    if b > 0 {
      MultiplesSubtract(a - step, b - step, step);
    }
  }
}
