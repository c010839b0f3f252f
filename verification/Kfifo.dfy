/**
 The kernel-style byte queue: two free-running 32-bit counters over a buffer whose size is a power of two.
 Both the counters and the buffer wrap, at different places.
 */
module Kfifo {
  import opened Bytes
  import opened RingQueue

  /** The check of kfifo_init: size & (size - 1) is 0 exactly for the powers of two. */
  lemma PowerOfTwoCheck(n: nat, size: nat)
    requires 0 < size < Pow2(n)
    ensures AndBits(n, size, size - 1) == 0 <==> exists k: nat :: size == Pow2(k)
  {
    if AndBits(n, size, size - 1) == 0 {
      var k := FindPower(n, size);
    }
    forall k: nat | size == Pow2(k)
      ensures AndBits(n, size, size - 1) == 0
    {
      if n < k {
        Pow2Monotone(n, k);
      }
      PowerPasses(n, k);
    }
  }

  lemma {:induction false} FindPower(n: nat, size: nat) returns (k: nat)
    requires 0 < size < Pow2(n) && AndBits(n, size, size - 1) == 0
    ensures size == Pow2(k)
  {
    if size == 1 {
      k := 0;
    } else {
      assert size % 2 == 1 ==> AndBits(n - 1, size / 2, size / 2) == size / 2;
      k := FindPower(n - 1, size / 2);
      k := k + 1;
    }
  }

  lemma {:induction false} PowerPasses(n: nat, k: nat)
    requires k <= n
    ensures AndBits(n, Pow2(k), Pow2(k) - 1) == 0
  {
    if k > 0 {
      PowerPasses(n - 1, k - 1);
      MaskHalves(k);
    }
  }

  /** The unsigned difference of two counters. */
  function Difference(input: nat, output: nat): nat {
    (input - output) % U32
  }

  /** Reading n from the other end leaves used - n. */
  lemma DifferenceShrinks(input: nat, output: nat, n: nat)
    requires input < U32 && output < U32 && n <= Difference(input, output)
    ensures Difference(input, (output + n) % U32) == Difference(input, output) - n
  {
    var r := Difference(input, output) - n;
    var q := (input - output) / U32 + (output + n) / U32;
    DivModUnique(input - (output + n) % U32, U32, q, r);
  }

  /** Writing n more makes used + n. */
  lemma DifferenceGrows(input: nat, output: nat, n: nat)
    requires input < U32 && output < U32 && Difference(input, output) + n < U32
    ensures Difference((input + n) % U32, output) == Difference(input, output) + n
  {
    var r := Difference(input, output) + n;
    var q := (input - output) / U32 - (input + n) / U32;
    DivModUnique((input + n) % U32 - output, U32, q, r);
  }

  /** A counter under the mask is the counter modulo the size. */
  lemma IndexIsMod(size: nat, k: nat, counter: nat)
    requires k < 32 && size == Pow2(k) && counter < U32
    ensures AndBits(32, counter, size - 1) == counter % size < size
  {
    Pow2Values();
    MaskIsMod(32, counter, k);
  }

  lemma ModStep(x: nat, n: nat, size: nat)
    requires 0 < size && n <= size
    ensures (x + n) % size == if x % size + n < size then x % size + n else x % size + n - size
  {
    var (q, r) := (x / size, x % size);
    if r + n < size {
      DivModUnique(x + n, size, q, r + n);
    } else {
      assert size * (q + 1) == size * q + size;
      DivModUnique(x + n, size, q + 1, r + n - size);
    }
  }

  /** Moving a counter moves its index around the buffer, even when the counter itself overflows. */
  lemma IndexMoves(size: nat, k: nat, counter: nat, n: nat)
    requires k < 32 && size == Pow2(k) && n <= size
    ensures (counter + n) % U32 % size
         == if counter % size + n < size then counter % size + n else counter % size + n - size
  {
    Pow2Values();
    ModOfMod(counter + n, k, 32);
    ModStep(counter, n, size);
  }

  /** The write index lies `used` places behind the read index. */
  lemma WriteIndex(size: nat, k: nat, input: nat, output: nat)
    requires k < 32 && size == Pow2(k) && input < U32 && output < U32 && Difference(input, output) < size
    ensures input % size == At(size, output % size, Difference(input, output))
  {
    var n := Difference(input, output);
    IndexMoves(size, k, output, n);
    CounterCatchesUp(input, output);
  }

  lemma CounterCatchesUp(input: nat, output: nat)
    requires input < U32 && output < U32
    ensures (output + Difference(input, output)) % U32 == input
  {
    if input < output {
      DivModUnique(input - output, U32, -1, input - output + U32);
    }
  }

  /** What the two copies of a read fetch. */
  lemma TwoCopies(mem: seq<byte>, p: nat, n: nat)
    requires p < |mem| && n <= |mem|
    ensures var l := Min(n, |mem| - p); mem[p..p + l] + mem[..n - l] == Run(mem, p, n)
  {
  }

  class Fifo {
    const buffer: array<byte>
    const size: nat
    const mask: nat
    ghost const k: nat
    // the counters in and out
    var input: nat
    var output: nat

    ghost predicate Valid()
      reads this`input, this`output
    {
      && k < 32 && buffer.Length == size == Pow2(k) && mask == size - 1
      && input < U32 && output < U32 && Difference(input, output) <= size
    }

    ghost function Contents(): (q: seq<byte>)
      reads this, buffer
      requires Valid()
      ensures |q| == Difference(input, output)
    {
      Run(buffer[..], output % size, Difference(input, output))
    }

    constructor (storage: array<byte>, ghost log: nat)
      requires log < 32 && storage.Length == Pow2(log)
      ensures Valid() && Contents() == [] && buffer == storage
    {
      buffer, size, mask, k := storage, storage.Length, storage.Length - 1, log;
      input, output := 0, 0;
    }

    function DataSize(): (n: nat)
      reads this, buffer
      requires Valid()
      ensures n == |Contents()|
    {
      Difference(input, output)
    }

    function Unused(): (n: nat)
      reads this, buffer
      requires Valid()
      ensures n == size - |Contents()|
    {
      SizeIsSmall(size);
      (mask + 1 - Difference(input, output)) % U32
    }

    /** A counter reduced under the mask. */
    method Index(counter: nat) returns (at: nat)
      requires Valid() && counter < U32
      ensures at == counter % size < size
    {
      IndexIsMod(size, k, counter);
      at := AndBits(32, counter, mask);
    }

    /** As many bytes as there is room for go in; what is there stays in front of them. */
    method Put(data: seq<byte>) returns (len: nat)
      requires Valid() && |data| < U32
      modifies this`input, buffer
      ensures Valid() && len == Min(|data|, size - |old(Contents())|)
      ensures Contents() == old(Contents()) + data[..len]
    {
      len := Min(|data|, Unused());
      Store(data[..len]);
    }

    /** The copies of kfifo_put and the advance of its counter. */
    method Store(data: seq<byte>)
      requires Valid() && |Contents()| + |data| <= size
      modifies this`input, buffer
      ensures Valid() && Contents() == old(Contents()) + data
    {
      var at := Index(input);
      ghost var before := buffer[..];
      CopyIn(buffer, at, data);
      PutKeeps(before, buffer[..], k, input, output, data);
      input := (input + |data|) % U32;
    }

    /** kfifo_copy_out: two copies from an offset that is reduced under the mask. */
    method CopyOut(len: nat, off: nat) returns (dst: seq<byte>)
      requires Valid() && off < U32 && len <= size
      ensures dst == Run(buffer[..], off % size, len)
    {
      var at := Index(off);
      var l := Min(len, mask + 1 - at);
      TwoCopies(buffer[..], at, len);
      dst := buffer[at..at + l] + buffer[..len - l];
    }

    /** As many bytes as there are come out, oldest first. */
    method Get(len: nat) returns (data: seq<byte>)
      requires Valid() && len < U32
      modifies this`output
      ensures Valid() && data == old(Contents())[..Min(len, |old(Contents())|)]
      ensures Contents() == old(Contents())[|data|..]
    {
      var n := Min(len, Difference(input, output));
      data := CopyOut(n, output);
      Take(n);
    }

    /** The advance of the read counter. */
    method Take(n: nat)
      requires Valid() && n <= |Contents()|
      modifies this`output
      ensures Valid() && Contents() == old(Contents())[n..]
    {
      DifferenceShrinks(input, output, n);
      IndexMoves(size, k, output, n);
      RunDrops(buffer[..], output % size, Difference(input, output), n, (output + n) % U32 % size);
      output := (output + n) % U32;
    }

    /** kfifo_out_peek: what the next Get of the same length will return, and nothing moves. */
    method OutPeek(len: nat) returns (data: seq<byte>)
      requires Valid() && len < U32
      ensures data == Contents()[..Min(len, |Contents()|)]
    {
      data := CopyOut(Min(len, Difference(input, output)), output);
    }
  }

  /** What Store relies on: the new bytes land right behind the queue, and the counters agree. */
  lemma PutKeeps(before: seq<byte>, after: seq<byte>, k: nat, input: nat, output: nat, data: seq<byte>)
    requires k < 32 && |before| == |after| == Pow2(k) && input < U32 && output < U32
    requires Difference(input, output) + |data| <= |before| && Appended(before, after, input % |before|, data)
    ensures Difference((input + |data|) % U32, output) == Difference(input, output) + |data|
    ensures Run(after, output % |before|, Difference(input, output) + |data|)
         == Run(before, output % |before|, Difference(input, output)) + data
  {
    SizeIsSmall(|before|);
    DifferenceGrows(input, output, |data|);
    if data != [] {
      WriteIndex(|before|, k, input, output);
    }
    RunAppends(before, after, output % |before|, Difference(input, output), input % |before|, data);
  }

  lemma SizeIsSmall(size: nat)
    requires exists k: nat :: k < 32 && size == Pow2(k)
    ensures size <= 0x8000_0000
  {
    Pow2Values();
    var k: nat :| k < 32 && size == Pow2(k);
    if k < 31 {
      Pow2Monotone(k, 31);
    }
  }
}
