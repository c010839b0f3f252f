/**
 The NOR flash driver: 32-byte line accesses behind byte-granular reads and writes.
 */
module Flash {
  import opened Bytes

  // The operate register carries a 24-bit address, so this is all the device can reach.
  const ADDRESS_SPACE: nat := 0x100_0000
  const SECTOR: nat := 0x1000
  const LINE: nat := 32

  /** Device: programming `data` at `address` ANDs it into the cells and touches nothing else. */
  function Programmed(cells: seq<byte>, address: nat, data: seq<byte>): (r: seq<byte>)
    requires address + |data| <= |cells|
    ensures |r| == |cells|
  {
    seq(|cells|, i requires 0 <= i < |cells| =>
      if address <= i < address + |data| then And(cells[i], data[i - address]) else cells[i])
  }

  function LineBase(address: nat): nat {
    address - address % LINE
  }

  /** The sector an erase command hits: address bits 12..23. */
  function SectorBase(address: nat): nat {
    address / SECTOR % SECTOR * SECTOR
  }

  /** Device: an erased sector reads 0xFF. */
  function Erased(cells: seq<byte>, base: nat): (r: seq<byte>)
    requires base + SECTOR <= |cells|
    ensures |r| == |cells|
  {
    seq(|cells|, i requires 0 <= i < |cells| => if base <= i < base + SECTOR then 0xFF else cells[i])
  }

  predicate Blank(cells: seq<byte>, from: nat, to: nat)
    requires to <= |cells|
  {
    forall i :: from <= i < to ==> cells[i] == 0xFF
  }

  /** The driver's bound check; it looks at the line-aligned address, in 32-bit arithmetic. */
  predicate Accepts(flashSize: nat, address: nat, len: nat) {
    var addr := LineBase(address);
    !(addr >= flashSize || len > flashSize || (addr + len) % U32 > flashSize)
  }

  /** A size from the configuration table. */
  predicate ChipSize(flashSize: nat) {
    0 < flashSize <= 0x80_0000 && flashSize % SECTOR == 0
  }

  class FlashDriver {
    var cells: seq<byte>
    const flashSize: nat

    ghost predicate Valid()
      reads this
    {
      |cells| == ADDRESS_SPACE && ChipSize(flashSize)
    }

    constructor (cells: seq<byte>, flashSize: nat)
      requires |cells| == ADDRESS_SPACE && ChipSize(flashSize)
      ensures Valid() && this.cells == cells && this.flashSize == flashSize
    {
      this.cells, this.flashSize := cells, flashSize;
    }

    /** Erases the sector containing `address`, unless it lies past the chip. */
    method EraseSector(address: nat)
      requires Valid()
      modifies this
      ensures Valid()
      ensures cells == if SectorBase(address) >= flashSize then old(cells) else Erased(old(cells), SectorBase(address))
    {
      var eraseAddr := SectorBase(address);
      if eraseAddr >= flashSize {
        return;
      }
      cells := Erased(cells, eraseAddr);
    }

    /** The inner copy of ReadData: the line from index `start` on, as far as it is wanted. */
    method CopyLine(buffer: array<byte>, dst: nat, line: seq<byte>, start: nat, left: nat) returns (n: nat)
      requires |line| == LINE && start < LINE && 0 < left && dst + left <= buffer.Length
      modifies buffer
      ensures n == Min(left, LINE - start)
      ensures buffer[..dst] == old(buffer[..dst]) && buffer[dst..dst + n] == line[start..start + n]
      ensures buffer[dst + n..] == old(buffer[dst + n..])
    {
      var i, remaining := start, left;
      n := 0;
      while i < LINE
        invariant n == i - start && i <= LINE && remaining == left - n && 0 < remaining
        invariant forall j :: 0 <= j < dst || dst + n <= j < buffer.Length ==> buffer[j] == old(buffer[j])
        invariant forall j :: start <= j < i ==> buffer[dst + j - start] == line[j]
      {
        buffer[dst + n] := line[i];
        remaining, i, n := remaining - 1, i + 1, n + 1;
        if remaining == 0 {
          break;
        }
      }
    }

    /** Copies [address, address+len) to the front of the buffer, one 32-byte line at a time. */
    method ReadData(buffer: array<byte>, address: nat, len: nat)
      requires Valid() && len <= buffer.Length && address + len <= ADDRESS_SPACE
      modifies buffer
      ensures buffer[..len] == cells[address..address + len]
      ensures buffer[len..] == old(buffer[len..])
    {
      var addr := LineBase(address);
      if len == 0 {
        return;
      }
      var cursor, left, dst := address, len, 0;
      while left > 0
        invariant dst + left == len && cursor == address + dst
        invariant left > 0 ==> addr == LineBase(cursor)
        invariant buffer[..dst] == cells[address..cursor]
        invariant buffer[len..] == old(buffer[len..])
      {
        LineInside(cursor);
        var line := cells[addr..addr + LINE];
        var n := CopyLine(buffer, dst, line, cursor % LINE, left);
        Subline(cells, addr, cursor % LINE, n);
        NextLine(cursor);
        Joins(buffer[..], cells, address, dst, n);
        addr, dst, cursor, left := addr + LINE, dst + n, cursor + n, left - n;
      }
    }

    /** The inner copy of WriteData: overlays the line from index `start` with the next source bytes. */
    method Overlay(pb: array<byte>, start: nat, buffer: seq<byte>, src: nat, left: nat) returns (n: nat)
      requires pb.Length == LINE && start < LINE && 0 < left && src + left <= |buffer|
      modifies pb
      ensures n == Min(left, LINE - start)
      ensures pb[..start] == old(pb[..start]) && pb[start..start + n] == buffer[src..src + n]
      ensures pb[start + n..] == old(pb[start + n..])
    {
      var i, remaining := start, left;
      n := 0;
      while i < LINE
        invariant n == i - start && i <= LINE && remaining == left - n && 0 < remaining
        invariant forall j :: 0 <= j < start || i <= j < LINE ==> pb[j] == old(pb[j])
        invariant forall j :: start <= j < i ==> pb[j] == buffer[src + j - start]
      {
        pb[i] := buffer[src + n];
        remaining, i, n := remaining - 1, i + 1, n + 1;
        if remaining == 0 {
          break;
        }
      }
    }

    /** The scratch line for one pass: the current line, read back unless it is all overwritten, under the chunk. */
    method FillLine(pb: array<byte>, cursor: nat, buffer: seq<byte>, src: nat, left: nat) returns (n: nat)
      requires Valid() && pb.Length == LINE && 0 < left && src + left <= |buffer|
      requires LineBase(cursor) + LINE <= ADDRESS_SPACE
      requires pb[..cursor % LINE] == cells[LineBase(cursor)..cursor]
      modifies pb
      ensures n == Min(left, LINE - cursor % LINE)
      ensures Programmed(cells, LineBase(cursor), pb[..]) == Programmed(cells, cursor, buffer[src..src + n])
    {
      LineInside(cursor);
      var addr, start := LineBase(cursor), cursor % LINE;
      if left < LINE {
        ReadData(pb, addr, LINE);
        Subline(cells, addr, 0, start);
        assert pb[..start] == pb[..LINE][..start];
      }
      ghost var before := pb[..];
      assert before[..start] == pb[..start] && (left < LINE ==> before == pb[..LINE]);
      n := Overlay(pb, start, buffer, src, left);
      ghost var line := pb[..];
      assert line[..start] == before[..start] == cells[addr..cursor];
      assert line[start..start + n] == buffer[src..src + n] && line[start + n..] == before[start + n..];
      RestOfLine(cells, addr, start + n, before, line);
      PaddedLine(cells, addr, start, line, buffer[src..src + n]);
    }

    /**
     One pass of the write loop: the part of the request that falls into the line at the cursor.
     A line that the request does not reach the end of is read back first.
     */
    method WriteLine(pb: array<byte>, cursor: nat, buffer: seq<byte>, src: nat, left: nat) returns (n: nat)
      requires Valid() && pb.Length == LINE && 0 < left && src + left <= |buffer|
      requires LineBase(cursor) + LINE <= ADDRESS_SPACE
      requires pb[..cursor % LINE] == cells[LineBase(cursor)..cursor]
      modifies this, pb
      ensures Valid()
      ensures n == Min(left, LINE - cursor % LINE)
      ensures cursor + n <= |old(cells)| && cells == Programmed(old(cells), cursor, buffer[src..src + n])
    {
      n := FillLine(pb, cursor, buffer, src, left);
      cells := Programmed(cells, LineBase(cursor), pb[..]);
      forall j | 0 <= j < LINE {
        pb[j] := 0xFF;
      }
    }

    /** The write loop, line after line; only the first line can start in its middle. */
    method WriteLines(pb: array<byte>, buffer: seq<byte>, address: nat, len: nat)
      requires Valid() && pb.Length == LINE && len <= |buffer| && address + len + LINE <= ADDRESS_SPACE
      requires pb[..address % LINE] == cells[LineBase(address)..address]
      modifies this, pb
      ensures Valid()
      ensures cells == Programmed(old(cells), address, buffer[..len])
    {
      var cursor, left, src := address, len, 0;
      assert Programmed(cells, address, buffer[..0]) == cells;
      while left > 0
        invariant Valid()
        invariant 0 <= src <= len && src + left == len && cursor == address + src
        invariant cells == Programmed(old(cells), address, buffer[..src])
        invariant left > 0 ==> src == 0 || cursor % LINE == 0
        invariant src == 0 ==> pb[..address % LINE] == cells[LineBase(address)..address]
      {
        LineInside(cursor);
        ghost var mid := cells;
        var n := WriteLine(pb, cursor, buffer, src, left);
        ProgramOn(old(cells), mid, cells, address, buffer, src, src + n);
        NextLine(cursor);
        cursor, left, src := cursor + n, left - n, src + n;
      }
    }

    /** Programs buffer[..len] at `address` through whole-line programs padded with what the line already holds. */
    method WriteData(buffer: seq<byte>, address: nat, len: nat)
      requires Valid() && len <= |buffer|
      modifies this
      ensures Valid()
      ensures Accepts(flashSize, address, len) ==>
                address + len <= |old(cells)| && cells == Programmed(old(cells), address, buffer[..len])
      ensures !Accepts(flashSize, address, len) ==> cells == old(cells)
    {
      var addr := LineBase(address);
      if addr >= flashSize || len > flashSize || (addr + len) % U32 > flashSize {
        return;
      }
      var pb := new byte[LINE](_ => 0xFF);
      if address % LINE != 0 {
        ReadData(pb, addr, LINE);
      }
      WriteLines(pb, buffer, address, len);
    }
  }

  lemma NextLine(address: nat)
    ensures (address + LINE - address % LINE) % LINE == 0
    ensures LineBase(address + LINE - address % LINE) == LineBase(address) + LINE
  {
    DivModUnique(address + LINE - address % LINE, LINE, address / LINE + 1, 0);
  }

  /** The line of an address of the device is on the device. */
  lemma LineInside(address: nat)
    requires address < ADDRESS_SPACE
    ensures LineBase(address) + LINE <= ADDRESS_SPACE && address == LineBase(address) + address % LINE
  {
    var q := address / LINE;
    assert address == LINE * q + address % LINE && q < ADDRESS_SPACE / LINE;
  }

  lemma Subline(cells: seq<byte>, addr: nat, start: nat, n: nat)
    requires addr + LINE <= |cells| && start + n <= LINE
    ensures cells[addr..addr + LINE][start..start + n] == cells[addr + start..addr + start + n]
  {
    var t := cells[addr..addr + LINE][start..start + n];
    assert forall i :: 0 <= i < n ==> t[i] == cells[addr + start + i];
  }

  lemma Joins(s: seq<byte>, cells: seq<byte>, from: nat, k: nat, n: nat)
    requires k + n <= |s| && from + k + n <= |cells|
    requires s[..k] == cells[from..from + k] && s[k..k + n] == cells[from + k..from + k + n]
    ensures s[..k + n] == cells[from..from + k + n]
  {
    assert s[..k + n] == s[..k] + s[k..k + n];
    assert cells[from..from + k + n] == cells[from..from + k] + cells[from + k..from + k + n];
  }

  /** Behind the chunk the scratch line still is what was read back, if anything is behind it. */
  lemma RestOfLine(cells: seq<byte>, addr: nat, end: nat, before: seq<byte>, line: seq<byte>)
    requires addr + LINE <= |cells| && |line| == |before| == LINE && end <= LINE && line[end..] == before[end..]
    requires end == LINE || before == cells[addr..addr + LINE]
    ensures line[end..] == cells[addr + end..addr + LINE]
  {
  }

  /**
   The scratch line after the copy is the current line with the chunk laid over it, so programming it
   changes the chunk's bytes only: every other byte is ANDed with itself.
   */
  lemma PaddedLine(cells: seq<byte>, addr: nat, start: nat, line: seq<byte>, chunk: seq<byte>)
    requires addr + LINE <= |cells| && |line| == LINE && start + |chunk| <= LINE
    requires line[..start] == cells[addr..addr + start] && line[start..start + |chunk|] == chunk
    requires line[start + |chunk|..] == cells[addr + start + |chunk|..addr + LINE]
    ensures Programmed(cells, addr, line) == Programmed(cells, addr + start, chunk)
  {
    forall j | 0 <= j < LINE
      ensures line[j] == if start <= j < start + |chunk| then chunk[j - start] else cells[addr + j]
    {
      if j < start {
        assert line[j] == line[..start][j];
      } else if start + |chunk| <= j {
        assert line[j] == line[start + |chunk|..][j - start - |chunk|];
      } else {
        assert line[j] == line[start..start + |chunk|][j - start];
      }
    }
    assert Programmed(cells, addr, line) == Programmed(cells, addr + start, chunk);
  }

  /** Programming a prefix and then the rest of a longer prefix is programming the longer prefix. */
  lemma ProgramOn(cells: seq<byte>, mid: seq<byte>, after: seq<byte>, address: nat, data: seq<byte>, from: nat, to: nat)
    requires from <= to <= |data| && address + to <= |cells|
    requires mid == Programmed(cells, address, data[..from])
    requires after == Programmed(mid, address + from, data[from..to])
    ensures after == Programmed(cells, address, data[..to])
  {
  }

  /** Programming a blank range stores the data there. */
  lemma ProgramBlank(cells: seq<byte>, address: nat, data: seq<byte>)
    requires address + |data| <= |cells| && Blank(cells, address, address + |data|)
    ensures Programmed(cells, address, data)[address..address + |data|] == data
    ensures Programmed(cells, address, data)[..address] == cells[..address]
    ensures Programmed(cells, address, data)[address + |data|..] == cells[address + |data|..]
  {
  }

  /** Inside the chip every write is accepted. */
  lemma InsideIsAccepted(flashSize: nat, address: nat, len: nat)
    requires ChipSize(flashSize) && address < flashSize && address + len <= flashSize
    ensures Accepts(flashSize, address, len)
  {
  }

  /**
   The bound check looks at the aligned address, so an accepted write may run past the chip by up to 31
   bytes. It stays inside, whatever the cells and the data, exactly when its own end does.
   */
  lemma AcceptedStaysInside(flashSize: nat, address: nat, len: nat)
    requires ChipSize(flashSize) && 0 < len && Accepts(flashSize, address, len)
    ensures address + len < flashSize + LINE
    ensures address + len <= flashSize <==>
      forall cells: seq<byte>, data: seq<byte> | |cells| == ADDRESS_SPACE && |data| == len ::
        Programmed(cells, address, data)[flashSize..] == cells[flashSize..]
  {
    if address + len > flashSize {
      var cells: seq<byte> := seq(ADDRESS_SPACE, _ => 0xFF);
      var data: seq<byte> := seq(len, _ => 0);
      var after := Programmed(cells, address, data);
      var last := address + len - 1;
      assert after[flashSize..][last - flashSize] != cells[flashSize..][last - flashSize];
    }
  }

  /** A write that passes the check and changes the 31 bytes past a 1 MB chip. */
  lemma PastTheEndExample()
    ensures ChipSize(0x10_0000) && Accepts(0x10_0000, 0xF_FFFF, 32) && 0xF_FFFF + 32 == 0x10_0000 + 31
    ensures exists cells: seq<byte>, data: seq<byte> | |cells| == ADDRESS_SPACE && |data| == 32 ::
      Programmed(cells, 0xF_FFFF, data)[0x10_0000..] != cells[0x10_0000..]
  {
    AcceptedStaysInside(0x10_0000, 0xF_FFFF, 32);
  }
}
