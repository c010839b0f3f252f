/**
 HTTP firmware download straight into flash: network fragments are repacked into 1024-byte blocks,
 each sector is erased when the write address reaches it, and every block is read back.
 */
module HttpOta {
  import opened Bytes
  import opened Words
  import opened Flash
  import opened FlashImage

  const IMAGE_BASE: nat := 0xF_F000

  /** How many bytes from the image base fit both the chip and the driver's window. */
  function Room(flashSize: nat): nat
    requires IMAGE_BASE <= flashSize
  {
    Min(WINDOW_HIGH, flashSize) - IMAGE_BASE
  }

  /** A chip that holds the image base. */
  predicate HoldsImage(flashSize: nat) {
    ChipSize(flashSize) && IMAGE_BASE <= flashSize
  }

  /** `cells` holds as much of `flushed` as there is room for, and nothing outside [IMAGE_BASE, frontier) changed. */
  ghost predicate Holds(cells: seq<byte>, before: seq<byte>, flashSize: nat, flushed: seq<byte>, frontier: nat)
    requires HoldsImage(flashSize)
  {
    Image(cells, before, IMAGE_BASE, flushed[..Min(|flushed|, Room(flashSize))], frontier)
  }

  /** The first address no flush of `flushed` bytes can have erased or programmed. */
  function Frontier(flushed: nat): nat {
    Min(IMAGE_BASE + RoundUp(flushed), WINDOW_HIGH + SECTOR)
  }

  /** The first address a download of n bytes leaves alone: the sector after the next byte, or after the window. */
  function ImageTop(n: nat): nat {
    Min(IMAGE_BASE + (n / SECTOR + 1) * SECTOR, WINDOW_HIGH + SECTOR)
  }

  /** Where http_flash_wr writes next: it stops advancing at the top of its window. */
  function Position(flushed: nat): nat {
    Min(IMAGE_BASE + flushed, WINDOW_HIGH)
  }

  /** The cells after http_flash_wr of `block`. */
  function AfterFlush(cells: seq<byte>, flashSize: nat, address: nat, block: seq<byte>): (r: seq<byte>)
    requires |cells| == ADDRESS_SPACE && ChipSize(flashSize) && |block| <= BLOCK
    ensures |r| == |cells|
  {
    var erased := AfterErase(cells, flashSize, address);
    if InWindow(address) then Write(erased, flashSize, address, block) else erased
  }

  /** At an address outside the window a flush programs nothing; at a sector boundary it still erases. */
  lemma NothingProgrammedOutside(cells: seq<byte>, flashSize: nat, address: nat, block: seq<byte>)
    requires |cells| == ADDRESS_SPACE && ChipSize(flashSize) && |block| <= BLOCK
    requires address < 0x2_7000 || 0x20_0000 <= address
    ensures !InWindow(address)
    ensures AfterFlush(cells, flashSize, address, block)
         == if address % SECTOR == 0 && SectorBase(address) < flashSize then Erased(cells, SectorBase(address))
            else cells
  {
  }

  /**
   Flushing the next block keeps the image: while there is room it lands on cells erased earlier in the
   run and not programmed since; once the room is used up nothing of the image changes any more.
   */
  lemma FlushKeeps(cells: seq<byte>, before: seq<byte>, flashSize: nat, flushed: seq<byte>, block: seq<byte>)
    requires HoldsImage(flashSize) && |flushed| % BLOCK == 0 && |block| <= BLOCK
    requires Holds(cells, before, flashSize, flushed, Frontier(|flushed|))
    ensures var after := AfterFlush(cells, flashSize, Position(|flushed|), block);
      && Holds(after, before, flashSize, flushed + block, Frontier(|flushed| + 1))
      && (|flushed + block| <= Room(flashSize) ==>
           after[Position(|flushed|)..Position(|flushed|) + |block|] == block)
  {
    if |flushed| < Room(flashSize) {
      FlushInside(cells, before, flashSize, flushed, block);
    } else {
      FlushOutside(cells, before, flashSize, flushed, block);
    }
  }

  lemma FlushInside(cells: seq<byte>, before: seq<byte>, flashSize: nat, flushed: seq<byte>, block: seq<byte>)
    requires HoldsImage(flashSize) && |flushed| % BLOCK == 0 && |block| <= BLOCK
    requires |flushed| < Room(flashSize)
    requires Holds(cells, before, flashSize, flushed, Frontier(|flushed|))
    ensures var after := AfterFlush(cells, flashSize, Position(|flushed|), block);
      && Holds(after, before, flashSize, flushed + block, Frontier(|flushed| + 1))
      && after[Position(|flushed|)..Position(|flushed|) + |block|] == block
  {
    var at := Position(|flushed|);
    RoomLeft(flashSize, |flushed|);
    HoldsAll(cells, before, flashSize, flushed, Frontier(|flushed|));
    ImageGoesOn(cells, before, IMAGE_BASE, flushed, Frontier(|flushed|), Frontier(|flushed| + 1));
    AppendBlock(cells, before, flashSize, IMAGE_BASE, flushed, at, block, Frontier(|flushed| + 1));
    HoldsAll(AfterFlush(cells, flashSize, at, block), before, flashSize, flushed + block, Frontier(|flushed| + 1));
  }

  /** While everything fits, the image is all of it. */
  lemma HoldsAll(cells: seq<byte>, before: seq<byte>, flashSize: nat, data: seq<byte>, frontier: nat)
    requires HoldsImage(flashSize) && |data| <= Room(flashSize)
    ensures Holds(cells, before, flashSize, data, frontier) == Image(cells, before, IMAGE_BASE, data, frontier)
  {
    assert data[..Min(|data|, Room(flashSize))] == data;
  }

  lemma RoomLeft(flashSize: nat, f: nat)
    requires HoldsImage(flashSize) && f < Room(flashSize) && f % BLOCK == 0
    ensures f + BLOCK <= Room(flashSize) && SectorsEnd(IMAGE_BASE, f) == Frontier(f + 1)
    ensures Position(f) == IMAGE_BASE + f && InWindow(Position(f)) && IMAGE_BASE % SECTOR == 0
    ensures Frontier(f) <= Frontier(f + 1) <= ADDRESS_SPACE
  {
    BlockPositions(f);
    RoomIsWhole(flashSize);
  }

  lemma RoomIsWhole(flashSize: nat)
    requires HoldsImage(flashSize)
    ensures Room(flashSize) % SECTOR == 0
  {
  }

  lemma FlushOutside(cells: seq<byte>, before: seq<byte>, flashSize: nat, flushed: seq<byte>, block: seq<byte>)
    requires HoldsImage(flashSize) && |flushed| % BLOCK == 0 && |block| <= BLOCK
    requires Room(flashSize) <= |flushed|
    requires Holds(cells, before, flashSize, flushed, Frontier(|flushed|))
    ensures var after := AfterFlush(cells, flashSize, Position(|flushed|), block);
      && Holds(after, before, flashSize, flushed + block, Frontier(|flushed| + 1))
      && (block == [] ==> after[Position(|flushed|)..Position(|flushed|) + |block|] == block)
  {
    var (at, room) := (Position(|flushed|), Room(flashSize));
    NoRoom(flashSize, |flushed|, |block|);
    SectorBaseIs(at);
    var after := AfterErase(cells, flashSize, at);
    OnlyErases(cells, flashSize, |flushed|, block);
    assert forall a :: 0 <= a < IMAGE_BASE + room || WINDOW_HIGH + SECTOR <= a < ADDRESS_SPACE ==> after[a] == cells[a];
    assert (flushed + block)[..Min(|flushed + block|, room)] == flushed[..Min(|flushed|, room)] == flushed[..room];
  }

  /** Once the room is used up, a flush at most erases the sector on top of the window. */
  lemma NoRoom(flashSize: nat, f: nat, n: nat)
    requires HoldsImage(flashSize) && Room(flashSize) <= f && f % BLOCK == 0
    ensures !(InWindow(Position(f)) && Accepts(flashSize, Position(f), n))
    ensures Position(f) >= flashSize || Position(f) == WINDOW_HIGH
    ensures RoundUp(Room(flashSize)) == Room(flashSize)
    ensures Frontier(f) <= Frontier(f + 1)
  {
    BlockPositions(f);
    RoomIsWhole(flashSize);
    if Position(f) < WINDOW_HIGH {
      PastTheChip(flashSize, Position(f));
    }
  }

  lemma OnlyErases(cells: seq<byte>, flashSize: nat, f: nat, block: seq<byte>)
    requires |cells| == ADDRESS_SPACE && HoldsImage(flashSize) && |block| <= BLOCK
    requires !(InWindow(Position(f)) && Accepts(flashSize, Position(f), |block|))
    ensures AfterFlush(cells, flashSize, Position(f), block) == AfterErase(cells, flashSize, Position(f))
  {
  }

  lemma PastTheChip(flashSize: nat, address: nat)
    requires ChipSize(flashSize) && flashSize <= address
    ensures LineBase(address) >= flashSize
  {
    var (q, d) := (flashSize / SECTOR, address - flashSize);
    LineAfter(q, d);
    assert flashSize == SECTOR * q;
  }

  lemma LineAfter(q: nat, d: nat)
    ensures (SECTOR * q + d) % LINE == d % LINE
  {
    assert SECTOR * q + d == LINE * (128 * q + d / LINE) + d % LINE;
    DivModUnique(SECTOR * q + d, LINE, 128 * q + d / LINE, d % LINE);
  }

  /** A chunk adds to what is buffered and leaves what is flushed. */
  lemma ChunkFollows(fed: seq<byte>, n: nat, chunk: seq<byte>)
    requires n <= |fed|
    ensures |fed + chunk| - (n + |chunk|) == |fed| - n
    ensures (fed + chunk)[..|fed| - n] == fed[..|fed| - n] && (fed + chunk)[|fed| - n..] == fed[|fed| - n..] + chunk
  {
  }

  /** The frontier of the last flush, r bytes before the end. */
  lemma LastFrontier(n: nat, r: nat)
    requires r < BLOCK && r <= n && (n - r) % BLOCK == 0
    ensures Frontier(n - r + 1) == ImageTop(n)
  {
    BlockOffset(n - r);
    RoundUpIs((n - r) / SECTOR, (n - r) % SECTOR + 1);
    DivModUnique(n, SECTOR, (n - r) / SECTOR, (n - r) % SECTOR + r);
  }

  lemma NextPosition(f: nat)
    requires f % BLOCK == 0
    ensures Position(f + BLOCK) == if InWindow(Position(f)) then Position(f) + BLOCK else Position(f)
    ensures Frontier(f + BLOCK) == Frontier(f + 1) && (f + BLOCK) % BLOCK == 0
  {
    BlockPositions(f);
    WholeBlocks(f);
  }

  lemma WholeBlocks(f: nat)
    requires f % BLOCK == 0
    ensures (f + BLOCK) % BLOCK == 0 && (f < WINDOW_HIGH - IMAGE_BASE ==> f + BLOCK <= WINDOW_HIGH - IMAGE_BASE)
  {
    var q := f / BLOCK;
    DivModUnique(f + BLOCK, BLOCK, q + 1, 0);
    assert f == q * BLOCK && WINDOW_HIGH - IMAGE_BASE == 1028 * BLOCK;
  }

  /** The flush of a full buffer: everything fed so far is in the image then. */
  lemma FullFlush(cells: seq<byte>, before: seq<byte>, flashSize: nat, fed: seq<byte>, block: seq<byte>)
    requires HoldsImage(flashSize) && |fed| >= BLOCK == |block| && (|fed| - BLOCK) % BLOCK == 0
    requires block == fed[|fed| - BLOCK..]
    requires Holds(cells, before, flashSize, fed[..|fed| - BLOCK], Frontier(|fed| - BLOCK))
    ensures var (f, at) := (|fed| - BLOCK, Position(|fed| - BLOCK));
      var after := AfterFlush(cells, flashSize, at, block);
      && |fed| % BLOCK == 0 && Position(|fed|) == (if InWindow(at) then at + BLOCK else at)
      && Holds(after, before, flashSize, fed, Frontier(|fed|))
      && (|fed| <= Room(flashSize) ==> after[at..at + BLOCK] == block)
  {
    var flushed := fed[..|fed| - BLOCK];
    assert fed == flushed + block;
    FlushKeeps(cells, before, flashSize, flushed, block);
    NextPosition(|flushed|);
  }

  lemma HoldsNothing(cells: seq<byte>, flashSize: nat)
    requires |cells| == ADDRESS_SPACE && HoldsImage(flashSize)
    ensures Holds(cells, cells, flashSize, [], Frontier(0))
  {
  }

  class HttpFlash {
    const flash: FlashDriver
    const wrBuf: array<byte>
    const wrTmpBuf: array<byte>
    var wrLastLen: nat
    var flashAddress: nat
    // readbacks that differed from what was written; the firmware only logs them
    var writeErrors: nat

    ghost var fed: seq<byte>
    ghost const before: seq<byte>

    ghost predicate Shape()
      reads this, flash
    {
      && flash.Valid() && HoldsImage(flash.flashSize)
      && wrBuf.Length == wrTmpBuf.Length == BLOCK && wrBuf != wrTmpBuf
      && wrLastLen <= BLOCK && wrLastLen <= |fed| && (|fed| - wrLastLen) % BLOCK == 0
      && flashAddress == Position(|fed| - wrLastLen)
    }

    ghost predicate Valid()
      reads this, flash, wrBuf
    {
      && Shape()
      && wrBuf[..wrLastLen] == fed[|fed| - wrLastLen..]
      && Holds(flash.cells, before, flash.flashSize, fed[..|fed| - wrLastLen], Frontier(|fed| - wrLastLen))
      && (|fed| - wrLastLen <= Room(flash.flashSize) ==> writeErrors == 0)
    }

    constructor Init(flash: FlashDriver)
      requires flash.Valid() && HoldsImage(flash.flashSize)
      ensures Valid() && fed == [] && before == flash.cells && this.flash == flash && wrLastLen == 0
      ensures fresh(wrBuf) && fresh(wrTmpBuf)
    {
      this.flash := flash;
      wrBuf := new byte[BLOCK];
      wrTmpBuf := new byte[BLOCK];
      wrLastLen, flashAddress, writeErrors := 0, IMAGE_BASE, 0;
      fed, before := [], flash.cells;
      new;
      HoldsNothing(before, flash.flashSize);
      assert Shape();
      assert fed[..|fed| - wrLastLen] == [];
    }

    /** Erase on a sector boundary, range check, write, read back, advance. */
    method FlashWr(len: nat)
      requires flash.Valid() && wrBuf.Length == wrTmpBuf.Length == BLOCK && wrBuf != wrTmpBuf && len <= BLOCK
      requires flashAddress <= WINDOW_HIGH
      modifies this`flashAddress, this`writeErrors, wrTmpBuf, flash
      ensures flash.Valid()
      ensures flash.cells == AfterFlush(old(flash.cells), flash.flashSize, old(flashAddress), wrBuf[..len])
      ensures flashAddress == if InWindow(old(flashAddress)) then old(flashAddress) + len else old(flashAddress)
      ensures var at := old(flashAddress);
        writeErrors == old(writeErrors) + if InWindow(at) && flash.cells[at..at + len] != wrBuf[..len] then 1 else 0
    {
      if flashAddress % SECTOR == 0 {
        flash.EraseSector(flashAddress);
      }
      if flashAddress >= WINDOW_HIGH || flashAddress < WINDOW_LOW {
        return;
      }
      flash.WriteData(wrBuf[..], flashAddress, len);
      assert wrBuf[..][..len] == wrBuf[..len];
      flash.ReadData(wrTmpBuf, flashAddress, len);
      if wrBuf[..len] != wrTmpBuf[..len] {
        writeErrors := writeErrors + 1;
      }
      flashAddress := flashAddress + len;
    }

    /**
     Feeds one network fragment. The buffer is flushed whenever it is full, so between calls it holds the
     last |fed| mod 1024 bytes, and everything before them is in the image.
     */
    method WrToFlash(page: seq<byte>)
      requires Valid() && wrLastLen < BLOCK
      modifies this, wrBuf, wrTmpBuf, flash
      ensures Valid() && wrLastLen < BLOCK
      ensures fed == old(fed) + page
    {
      var i := 0;
      while i < |page|
        invariant Valid() && wrLastLen < BLOCK
        invariant 0 <= i <= |page| && fed == old(fed) + page[..i]
      {
        var n := Min(|page| - i, BLOCK - wrLastLen);
        Buffer(page[i..i + n]);
        i := i + n;
        if wrLastLen >= BLOCK {
          Flush();
        }
      }
    }

    /** The os_memcpy into wr_buf. */
    method CopyChunk(chunk: seq<byte>)
      requires wrBuf.Length == BLOCK && wrLastLen + |chunk| <= BLOCK
      modifies wrBuf
      ensures wrBuf[..wrLastLen + |chunk|] == old(wrBuf[..wrLastLen]) + chunk
    {
      forall k | 0 <= k < |chunk| {
        wrBuf[wrLastLen + k] := chunk[k];
      }
    }

    /** A chunk that the buffer has room for. */
    method Buffer(chunk: seq<byte>)
      requires Valid() && wrLastLen + |chunk| <= BLOCK
      modifies this`wrLastLen, this`fed, wrBuf
      ensures Valid()
      ensures fed == old(fed) + chunk && wrLastLen == old(wrLastLen) + |chunk|
    {
      CopyChunk(chunk);
      ChunkFollows(fed, wrLastLen, chunk);
      fed := fed + chunk;
      wrLastLen := wrLastLen + |chunk|;
    }

    /** http_flash_wr of a full buffer, which then counts as empty. */
    method Flush()
      requires Valid() && wrLastLen == BLOCK
      modifies this`flashAddress, this`writeErrors, this`wrLastLen, wrTmpBuf, flash
      ensures Valid() && wrLastLen == 0
    {
      FullFlush(flash.cells, before, flash.flashSize, fed, wrBuf[..BLOCK]);
      FlashWr(BLOCK);
      wrLastLen := 0;
      assert fed[..|fed| - wrLastLen] == fed;
    }

    /**
     The flush at the end of the content: the image is the stream, cut off where the room ends, and a
     stream that fits was read back without a difference.
     */
    method Finish()
      requires Valid() && wrLastLen < BLOCK
      modifies this, wrTmpBuf, flash
      ensures flash.Valid()
      ensures Holds(flash.cells, before, flash.flashSize, fed, ImageTop(|fed|))
      ensures |fed| <= Room(flash.flashSize) ==> writeErrors == 0
      ensures fed == old(fed)
    {
      ghost var flushed := fed[..|fed| - wrLastLen];
      FlushKeeps(flash.cells, before, flash.flashSize, flushed, wrBuf[..wrLastLen]);
      FlashWr(wrLastLen);
      LastFrontier(|fed|, wrLastLen);
      assert fed == flushed + fed[|fed| - wrLastLen..];
    }
  }

  /**
   A whole download, as httpclient_retrieve_content runs it: whatever the fragmentation, the flash ends up
   holding the stream from the image base on, cut off at the end of the window or of the chip. Below the
   image, and from the sector after its end on, nothing changes.
   */
  method Download(flash: FlashDriver, fragments: seq<seq<byte>>) returns (writeErrors: nat)
    requires flash.Valid() && HoldsImage(flash.flashSize)
    modifies flash
    ensures flash.Valid()
    ensures var (stream, room) := (Flatten(fragments), Room(flash.flashSize));
      var stored := Min(|stream|, room);
      && flash.cells[IMAGE_BASE..IMAGE_BASE + stored] == stream[..stored]
      && flash.cells[..IMAGE_BASE] == old(flash.cells)[..IMAGE_BASE]
      && ImageTop(|stream|) <= ADDRESS_SPACE
      && flash.cells[ImageTop(|stream|)..] == old(flash.cells)[ImageTop(|stream|)..]
      && (|stream| <= room ==> writeErrors == 0)
  {
    var http := new HttpFlash.Init(flash);
    FeedAll(http, fragments);
    http.Finish();
    writeErrors := http.writeErrors;
    HoldsMeans(flash.cells, http.before, flash.flashSize, Flatten(fragments), ImageTop(|http.fed|));
  }

  /** The receive loop. */
  method FeedAll(http: HttpFlash, fragments: seq<seq<byte>>)
    requires http.Valid() && http.wrLastLen < BLOCK && http.fed == []
    modifies http, http.wrBuf, http.wrTmpBuf, http.flash
    ensures http.Valid() && http.wrLastLen < BLOCK && http.fed == Flatten(fragments)
  {
    var k := 0;
    while k < |fragments|
      invariant 0 <= k <= |fragments|
      invariant http.Valid() && http.wrLastLen < BLOCK && http.fed == Flatten(fragments[..k])
    {
      http.WrToFlash(fragments[k]);
      FlattenSnoc(fragments, k);
      k := k + 1;
    }
    assert fragments[..k] == fragments;
  }

  /** What it means for the flash to hold the image, as a reader of the flash sees it. */
  lemma HoldsMeans(cells: seq<byte>, before: seq<byte>, flashSize: nat, stream: seq<byte>, end: nat)
    requires HoldsImage(flashSize) && Holds(cells, before, flashSize, stream, end)
    ensures var stored := Min(|stream|, Room(flashSize));
      && IMAGE_BASE + stored <= end <= ADDRESS_SPACE && |cells| == |before| == ADDRESS_SPACE
      && cells[IMAGE_BASE..IMAGE_BASE + stored] == stream[..stored]
      && cells[..IMAGE_BASE] == before[..IMAGE_BASE] && cells[end..] == before[end..]
  {
  }
}
