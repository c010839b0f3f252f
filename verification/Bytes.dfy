/** Bytes, 32-bit arithmetic and the bitwise AND of two bytes. */
module Bytes {

  const U16: nat := 0x1_0000
  const U32: nat := 0x1_0000_0000

  type byte = x: int | 0 <= x < 256

  datatype Option<+T> = None | Some(value: T)

  function Min(a: int, b: int): int {
    if a <= b then a else b
  }

  function Pow2(k: nat): (p: nat)
    ensures p > 0
  {
    if k == 0 then 1 else 2 * Pow2(k - 1)
  }

  /** The low k bits of a AND b, one bit at a time. */
  function AndBits(k: nat, a: nat, b: nat): (r: nat)
    ensures r < Pow2(k)
    ensures a < Pow2(k) && (b == Pow2(k) - 1 || b == a) ==> r == a
    ensures b < Pow2(k) && a == Pow2(k) - 1 ==> r == b
    ensures a == 0 || b == 0 ==> r == 0
  {
    if k == 0 then 0
    else (if a % 2 == 1 && b % 2 == 1 then 1 else 0) + 2 * AndBits(k - 1, a / 2, b / 2)
  }

  /** What a NOR cell holds after programming `b` over `a`: bits can only be cleared. */
  function And(a: byte, b: byte): (r: byte)
    ensures b == 0xFF || a == b ==> r == a
    ensures a == 0xFF ==> r == b
    ensures a == 0 || b == 0 ==> r == 0
  {
    assert Pow2(8) == 256;
    AndBits(8, a, b)
  }

  lemma {:induction false} Pow2Monotone(j: nat, k: nat)
    requires j < k
    ensures 2 * Pow2(j) <= Pow2(k)
    decreases k
  {
    if j < k - 1 {
      Pow2Monotone(j, k - 1);
    }
  }

  lemma {:induction false} Pow2Adds(j: nat, k: nat)
    ensures Pow2(j + k) == Pow2(j) * Pow2(k)
  {
    if k > 0 {
      Pow2Adds(j, k - 1);
      assert Pow2(j + k) == 2 * Pow2(j + (k - 1));
    }
  }

  lemma Pow2Values()
    ensures Pow2(30) == 0x4000_0000 && Pow2(31) == 0x8000_0000 && Pow2(32) == U32
  {
    assert Pow2(10) == 1024;
    Pow2Adds(10, 10);
    Pow2Adds(20, 10);
    Pow2Adds(30, 1);
    Pow2Adds(30, 2);
  }

  lemma MulAtLeast(m: int, d: int)
    requires 0 < m
    ensures d > 0 ==> m * d >= m
    ensures d < 0 ==> m * d <= -m
  {
  }

  lemma DivModUnique(x: int, m: int, q: int, r: int)
    requires 0 < m && x == m * q + r && 0 <= r < m
    ensures x % m == r && x / m == q
  {
    var d := x / m - q;
    assert m * d == m * (x / m) - m * q;
    MulAtLeast(m, d);
  }

  lemma HalfMod(x: nat, m: nat)
    requires 0 < m
    ensures x % (2 * m) == x % 2 + 2 * (x / 2 % m)
    ensures x / (2 * m) == x / 2 / m
  {
    var (h, q, r) := (x / 2, x / 2 / m, x / 2 % m);
    assert h == m * q + r;
    assert 2 * h == (2 * m) * q + 2 * r;
    DivModUnique(x, 2 * m, q, 2 * r + x % 2);
  }

  lemma MaskHalves(k: nat)
    requires k > 0
    ensures (Pow2(k) - 1) % 2 == 1 && (Pow2(k) - 1) / 2 == Pow2(k - 1) - 1
  {
  }

  /** Masking with a power of two less one is taking the remainder. */
  lemma {:induction false} MaskIsMod(n: nat, x: nat, k: nat)
    requires k <= n && x < Pow2(n)
    ensures AndBits(n, x, Pow2(k) - 1) == x % Pow2(k)
  {
    if k > 0 {
      MaskIsMod(n - 1, x / 2, k - 1);
      HalfMod(x, Pow2(k - 1));
      MaskHalves(k);
    }
  }

  lemma MulAssociates(a: int, b: int, c: int)
    ensures a * b * c == a * (b * c)
  {
  }

  lemma ModOfProduct(x: int, p: int, m: int)
    requires 0 < p && 0 < m && 0 < p * m
    ensures x % (p * m) % p == x % p
  {
    var (a, b) := (x / (p * m), x % (p * m));
    var (c, r) := (b / p, b % p);
    MulAssociates(p, m, a);
    assert p * (m * a + c) == p * (m * a) + p * c;
    DivModUnique(x, p, m * a + c, r);
  }

  /** A remainder by a power of two survives an overflow by a larger one. */
  lemma ModOfMod(x: int, j: nat, k: nat)
    requires j <= k
    ensures x % Pow2(k) % Pow2(j) == x % Pow2(j)
  {
    Pow2Adds(j, k - j);
    ModOfProduct(x, Pow2(j), Pow2(k - j));
  }

  predicate BitSet(x: nat, k: nat) {
    x / Pow2(k) % 2 == 1
  }

  lemma BitOfHalf(x: nat, k: nat)
    requires k > 0
    ensures BitSet(x, k) <==> BitSet(x / 2, k - 1)
  {
    HalfMod(x, Pow2(k - 1));
  }

  lemma {:induction false} AndBitsSet(n: nat, a: nat, b: nat, k: nat)
    requires k < n
    ensures BitSet(AndBits(n, a, b), k) <==> BitSet(a, k) && BitSet(b, k)
  {
    var (r, h) := (AndBits(n, a, b), AndBits(n - 1, a / 2, b / 2));
    assert r / 2 == h;
    if k > 0 {
      AndBitsSet(n - 1, a / 2, b / 2, k - 1);
      BitOfHalf(a, k);
      BitOfHalf(b, k);
      BitOfHalf(r, k);
    }
  }

  /** Programming leaves a bit set exactly if it was set in the cell and is set in the data. */
  lemma AndIsBitwise(a: byte, b: byte, k: nat)
    requires k < 8
    ensures BitSet(And(a, b), k) <==> BitSet(a, k) && BitSet(b, k)
  {
    AndBitsSet(8, a, b, k);
  }
}
