/**
 An image that grows in flash block by block: the pattern shared by the HTTP download and store_block.
 A sector is erased when the write address reaches it, then its four 1024-byte blocks are programmed.
 */
module FlashImage {
  import opened Bytes
  import opened Flash

  const BLOCK: nat := 1024
  const WINDOW_LOW: nat := 0x2_7000
  const WINDOW_HIGH: nat := 0x20_0000

  /** The range check both writers make before programming. */
  predicate InWindow(address: nat) {
    WINDOW_LOW <= address < WINDOW_HIGH
  }

  function RoundUp(n: nat): nat {
    if n % SECTOR == 0 then n else n - n % SECTOR + SECTOR
  }

  lemma RoundUpMonotone(a: nat, b: nat)
    requires a <= b
    ensures RoundUp(a) <= RoundUp(b)
  {
    var (p, q) := (a / SECTOR, b / SECTOR);
    assert a == SECTOR * p + a % SECTOR && b == SECTOR * q + b % SECTOR;
    assert p <= q;
  }

  /** What both writers do first: a write position at the start of a sector erases it. */
  function AfterErase(cells: seq<byte>, flashSize: nat, address: nat): (r: seq<byte>)
    requires |cells| == ADDRESS_SPACE && ChipSize(flashSize)
    ensures |r| == |cells|
  {
    if address % SECTOR == 0 && SectorBase(address) < flashSize then Erased(cells, SectorBase(address)) else cells
  }

  /** What the driver's write does. */
  function Write(cells: seq<byte>, flashSize: nat, address: nat, data: seq<byte>): (r: seq<byte>)
    requires |cells| == ADDRESS_SPACE && ChipSize(flashSize)
    ensures |r| == |cells|
  {
    if Accepts(flashSize, address, |data|) then Programmed(cells, address, data) else cells
  }

  /**
   The cells hold `data` from `base` on, the rest of the sector being filled is blank, and nothing below
   `base` or from `end` on differs from `before`.
   */
  ghost predicate Image(cells: seq<byte>, before: seq<byte>, base: nat, data: seq<byte>, end: nat) {
    && |cells| == |before| == ADDRESS_SPACE && base + RoundUp(|data|) <= end <= ADDRESS_SPACE
    && (forall a :: 0 <= a < base || end <= a < ADDRESS_SPACE ==> cells[a] == before[a])
    && (forall a :: base <= a < base + |data| ==> cells[a] == data[a - base])
    && Blank(cells, base + |data|, base + RoundUp(|data|))
  }

  /** The end of the sectors that hold n bytes and the write position after them. */
  function SectorsEnd(base: nat, n: nat): nat {
    base + RoundUp(n + 1)
  }

  /** r bytes into a sector, the end of the sector is next. */
  lemma RoundUpIs(q: nat, r: nat)
    requires 0 < r <= SECTOR
    ensures RoundUp(SECTOR * q + r) == SECTOR * (q + 1)
  {
    if r < SECTOR {
      DivModUnique(SECTOR * q + r, SECTOR, q, r);
    } else {
      DivModUnique(SECTOR * q + r, SECTOR, q + 1, 0);
    }
  }

  /** A block boundary is at most three blocks into its sector. */
  lemma BlockOffset(f: nat)
    requires f % BLOCK == 0
    ensures f == SECTOR * (f / SECTOR) + f % SECTOR && f % SECTOR + BLOCK <= SECTOR
  {
    ModOfProduct(f, BLOCK, 4);
    var r := f % SECTOR;
    assert r == BLOCK * (r / BLOCK);
  }

  lemma BlockPositions(f: nat)
    requires f % BLOCK == 0
    ensures RoundUp(f + 1) == f - f % SECTOR + SECTOR
    ensures f + BLOCK <= RoundUp(f + 1) && RoundUp(f + BLOCK) == RoundUp(f + 1)
  {
    BlockOffset(f);
    RoundUpIs(f / SECTOR, f % SECTOR + 1);
    RoundUpIs(f / SECTOR, f % SECTOR + BLOCK);
  }

  lemma BlockEnd(f: nat, n: nat)
    requires f % BLOCK == 0 && n <= BLOCK
    ensures RoundUp(f + n) <= RoundUp(f + 1)
  {
    RoundUpMonotone(f + n, f + BLOCK);
    BlockPositions(f);
  }

  lemma SectorBaseIs(address: nat)
    requires address < ADDRESS_SPACE
    ensures SectorBase(address) == address - address % SECTOR
  {
  }

  lemma AlignedSum(base: nat, f: nat)
    requires base % SECTOR == 0
    ensures (base + f) % SECTOR == f % SECTOR
  {
  }

  /** Erasing at the write position keeps the image and leaves room for one block. */
  lemma EraseKeeps(cells: seq<byte>, before: seq<byte>, flashSize: nat, base: nat, data: seq<byte>, end: nat)
    requires ChipSize(flashSize) && base % SECTOR == 0 && |data| % BLOCK == 0 && base + |data| < flashSize
    requires SectorsEnd(base, |data|) <= end
    requires Image(cells, before, base, data, end)
    ensures var (at, full) := (base + |data|, SectorsEnd(base, |data|));
      var erased := AfterErase(cells, flashSize, at);
      && at + BLOCK <= full <= flashSize
      && Image(erased, before, base, data, end) && Blank(erased, at, full)
  {
    var at := base + |data|;
    BlockPositions(|data|);
    SectorBaseIs(at);
    AlignedSum(base, |data|);
    SectorFits(flashSize, at);
  }

  lemma SectorFits(flashSize: nat, at: nat)
    requires ChipSize(flashSize) && at < flashSize
    ensures at - at % SECTOR + SECTOR <= flashSize
  {
  }

  lemma BlockStored(cells: seq<byte>, at: nat, block: seq<byte>)
    requires at + |block| <= |cells| && Blank(cells, at, at + |block|)
    ensures var after := Programmed(cells, at, block);
      && (forall a :: 0 <= a < at || at + |block| <= a < |cells| ==> after[a] == cells[a])
      && (forall a :: at <= a < at + |block| ==> after[a] == block[a - at])
      && after[at..at + |block|] == block
  {
  }

  /** A later frontier claims less. */
  lemma ImageGoesOn(cells: seq<byte>, before: seq<byte>, base: nat, data: seq<byte>, end: nat, later: nat)
    requires Image(cells, before, base, data, end) && end <= later <= ADDRESS_SPACE
    ensures Image(cells, before, base, data, later)
  {
  }

  lemma ImageExtends(cells: seq<byte>, after: seq<byte>, before: seq<byte>, base: nat, data: seq<byte>,
                     block: seq<byte>, full: nat, end: nat)
    requires Image(cells, before, base, data, end) && full <= end && Blank(cells, base + |data|, full)
    requires base + |data| + |block| <= full && base + RoundUp(|data + block|) <= full && |after| == |cells|
    requires forall a :: 0 <= a < base + |data| || base + |data| + |block| <= a < |cells| ==> after[a] == cells[a]
    requires forall a :: base + |data| <= a < base + |data| + |block| ==> after[a] == block[a - base - |data|]
    ensures Image(after, before, base, data + block, end)
  {
  }

  /** A block programmed on blank cells right behind the image extends it. */
  lemma ImageStored(cells: seq<byte>, after: seq<byte>, before: seq<byte>, base: nat, data: seq<byte>,
                    block: seq<byte>, full: nat, end: nat)
    requires Image(cells, before, base, data, end) && full <= end && Blank(cells, base + |data|, full)
    requires base + |data| + |block| <= full && base + RoundUp(|data + block|) <= full
    requires after == Programmed(cells, base + |data|, block)
    ensures Image(after, before, base, data + block, end) && after[base + |data|..base + |data| + |block|] == block
  {
    BlockStored(cells, base + |data|, block);
    ImageExtends(cells, after, before, base, data, block, full, end);
  }

  /** Erase if needed, then program: the image grows by the block, which only lands on blank cells. */
  lemma AppendBlock(cells: seq<byte>, before: seq<byte>, flashSize: nat, base: nat, data: seq<byte>, at: nat,
                    block: seq<byte>,
                    end: nat)
    requires ChipSize(flashSize) && base % SECTOR == 0 && |data| % BLOCK == 0 && at == base + |data| < flashSize
    requires |block| <= BLOCK && SectorsEnd(base, |data|) <= end
    requires Image(cells, before, base, data, end)
    ensures var after := Write(AfterErase(cells, flashSize, at), flashSize, at, block);
      && at + |block| <= flashSize
      && Image(after, before, base, data + block, end) && after[at..at + |block|] == block
  {
    EraseKeeps(cells, before, flashSize, base, data, end);
    BlockEnd(|data|, |block|);
    var erased := AfterErase(cells, flashSize, at);
    AppendOnBlank(erased, Write(erased, flashSize, at, block), before, flashSize, base, data, at, block,
                  SectorsEnd(base, |data|), end);
  }

  /** The write alone, when the rest of the sector is blank. */
  lemma AppendOnBlank(cells: seq<byte>, after: seq<byte>, before: seq<byte>, flashSize: nat, base: nat, data: seq<byte>,
                      at: nat, block: seq<byte>, full: nat, end: nat)
    requires ChipSize(flashSize) && full <= end && full <= flashSize && at == base + |data| < flashSize
    requires Image(cells, before, base, data, end) && Blank(cells, at, full)
    requires at + |block| <= full && base + RoundUp(|data + block|) <= full
    requires after == Write(cells, flashSize, at, block)
    ensures Image(after, before, base, data + block, end) && after[at..at + |block|] == block
  {
    WriteInside(cells, flashSize, at, block);
    ImageStored(cells, after, before, base, data, block, full, end);
  }

  /** Inside the chip every write is accepted. */
  lemma WriteInside(cells: seq<byte>, flashSize: nat, address: nat, data: seq<byte>)
    requires |cells| == ADDRESS_SPACE && ChipSize(flashSize) && address + |data| <= flashSize && address < flashSize
    ensures Write(cells, flashSize, address, data) == Programmed(cells, address, data)
  {
    InsideIsAccepted(flashSize, address, |data|);
  }
}
