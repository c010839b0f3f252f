/** Little-endian words in memory, and byte strings put together. */
module Words {
  import opened Bytes

  function U16At(s: seq<byte>, i: nat): (r: nat)
    requires i + 2 <= |s|
    ensures r < 0x1_0000
  {
    (s[i] as int) + 0x100 * (s[i + 1] as int)
  }

  function U32At(s: seq<byte>, i: nat): (r: nat)
    requires i + 4 <= |s|
    ensures r < U32
  {
    U16At(s, i) + 0x1_0000 * U16At(s, i + 2)
  }

  function Le32(v: nat): (r: seq<byte>)
    requires v < U32
    ensures |r| == 4
  {
    [v % 0x100, v / 0x100 % 0x100, v / 0x100 / 0x100 % 0x100, v / 0x100 / 0x100 / 0x100]
  }

  function Le16(v: nat): (r: seq<byte>)
    requires v < U16
    ensures |r| == 2
  {
    [v % 0x100, v / 0x100]
  }

  lemma HalfReads(s: seq<byte>, i: nat, v: nat)
    requires v < U16 && i + 2 <= |s| && s[i..i + 2] == Le16(v)
    ensures U16At(s, i) == v
  {
    assert s[i] == s[i..i + 2][0] && s[i + 1] == s[i..i + 2][1];
  }

  lemma Le32Reads(v: nat)
    requires v < U32
    ensures U32At(Le32(v), 0) == v
  {
    var h := v / 0x100;
    assert v == 0x100 * h + v % 0x100;
    assert h == 0x100 * (h / 0x100) + h % 0x100;
    assert h / 0x100 == 0x100 * (h / 0x100 / 0x100) + h / 0x100 % 0x100;
  }

  lemma WordReads(s: seq<byte>, i: nat, v: nat)
    requires v < U32 && i + 4 <= |s| && s[i..i + 4] == Le32(v)
    ensures U32At(s, i) == v
  {
    Le32Reads(v);
    assert U32At(s[i..i + 4], 0) == U32At(s, i);
  }

  /** A word inside a copy of `head` at `at`. */
  lemma WordOf(s: seq<byte>, at: nat, head: seq<byte>, i: nat, v: nat)
    requires v < U32 && at + |head| <= |s| && s[at..at + |head|] == head
    requires i + 4 <= |head| && head[i..i + 4] == Le32(v)
    ensures U32At(s, at + i) == v
  {
    var word := s[at + i..at + i + 4];
    assert forall k :: 0 <= k < 4 ==> word[k] == s[at + i + k] == head[i + k] == head[i..i + 4][k];
    assert word == head[i..i + 4];
    WordReads(s, at + i, v);
  }

  /** n words from `at` on. */
  function WordsAt(s: seq<byte>, at: nat, n: nat): (r: seq<nat>)
    requires at + 4 * n <= |s|
    ensures |r| == n
  {
    if n == 0 then [] else WordsAt(s, at, n - 1) + [U32At(s, at + 4 * (n - 1))]
  }

  lemma {:induction false} WordAt(s: seq<byte>, at: nat, n: nat, k: nat)
    requires at + 4 * n <= |s| && k < n
    ensures WordsAt(s, at, n)[k] == U32At(s, at + 4 * k)
  {
    if k < n - 1 {
      WordAt(s, at, n - 1, k);
    }
  }

  /** All fragments in order. */
  function Flatten(fragments: seq<seq<byte>>): seq<byte> {
    if fragments == [] then [] else fragments[0] + Flatten(fragments[1..])
  }

  lemma {:induction false} FlattenSnoc(fragments: seq<seq<byte>>, k: nat)
    requires k < |fragments|
    ensures Flatten(fragments[..k + 1]) == Flatten(fragments[..k]) + fragments[k]
  {
    if k == 0 {
      assert fragments[..1] == [fragments[0]];
    } else {
      FlattenSnoc(fragments[1..], k - 1);
      assert fragments[..k][1..] == fragments[1..][..k - 1];
      assert fragments[..k + 1][1..] == fragments[1..][..k];
    }
  }

  lemma {:induction false} FlattenPrefix(parts: seq<seq<byte>>, k: nat)
    requires k <= |parts|
    ensures Flatten(parts[..k]) <= Flatten(parts)
    decreases |parts| - k
  {
    if k == |parts| {
      assert parts[..k] == parts;
    } else {
      FlattenPrefix(parts, k + 1);
      FlattenSnoc(parts, k);
    }
  }

  /** Every part is where the lengths of those before it add up to. */
  lemma FlattenAt(parts: seq<seq<byte>>, k: nat)
    requires k < |parts|
    ensures var (a, n) := (|Flatten(parts[..k])|, |parts[k]|);
      |Flatten(parts[..k + 1])| == a + n <= |Flatten(parts)| && Flatten(parts)[a..a + n] == parts[k]
  {
    FlattenSnoc(parts, k);
    FlattenPrefix(parts, k + 1);
    var (a, n) := (|Flatten(parts[..k])|, |parts[k]|);
    assert Flatten(parts)[..a + n][a..] == parts[k];
  }

  /** k equal parts. */
  lemma {:induction false} FlattenLength(parts: seq<seq<byte>>, k: nat, len: nat)
    requires k <= |parts| && forall i :: 0 <= i < k ==> |parts[i]| == len
    ensures |Flatten(parts[..k])| == k * len
  {
    if k > 0 {
      FlattenLength(parts, k - 1, len);
      FlattenSnoc(parts, k - 1);
    }
  }
}
