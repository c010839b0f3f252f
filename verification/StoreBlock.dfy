/**
 store_block: commits one over-the-air packet to flash, keeps the running CRC, and writes the image
 header of the boot loader once the last packet's CRC agrees. The CRC itself is a parameter.
 */
module StoreBlock {
  import opened Bytes
  import opened Words
  import opened Flash
  import opened FlashImage

  const HEADER_LEN: nat := 24
  const CRC_LEN: nat := 4
  const PACKET_LEN: nat := HEADER_LEN + BLOCK

  type Crc = (seq<byte>, nat) -> nat

  /** SEND_PTK_HD without its sequence number. */
  datatype ImageInfo = ImageInfo(totalLen: nat, totalSeq: nat, os0ExAddr: nat, osHdAddr: nat,
                                 os0FlashAddr: nat, os1FlashAddr: nat)

  function Info(packet: seq<byte>): (r: ImageInfo)
    requires HEADER_LEN <= |packet|
    ensures ValidInfo(r)
  {
    ImageInfo(U32At(packet, 0), U16At(packet, 6), U32At(packet, 8), U32At(packet, 12), U32At(packet, 16),
              U32At(packet, 20))
  }

  function SeqOf(packet: seq<byte>): nat
    requires HEADER_LEN <= |packet|
  {
    U16At(packet, 4)
  }

  function Payload(packet: seq<byte>): seq<byte>
    requires HEADER_LEN <= |packet|
  {
    packet[HEADER_LEN..]
  }

  predicate ValidInfo(info: ImageInfo) {
    && info.totalLen < U32 && info.totalSeq < U16 && info.os0ExAddr < U32 && info.osHdAddr < U32
    && info.os0FlashAddr < U32 && info.os1FlashAddr < U32
  }

  /** SEND_PTK_HD as its sender lays it out: two-byte numbers where the structure has a u16, four bytes otherwise. */
  function PacketHead(info: ImageInfo, number: nat): (r: seq<byte>)
    requires ValidInfo(info) && number < U16
    ensures |r| == HEADER_LEN
  {
    Le32(info.totalLen) + Le16(number) + Le16(info.totalSeq) + Le32(info.os0ExAddr) + Le32(info.osHdAddr)
    + Le32(info.os0FlashAddr) + Le32(info.os1FlashAddr)
  }

  /** Packet number, fields and payload are read back as they were laid out. */
  lemma PacketReads(info: ImageInfo, number: nat, payload: seq<byte>)
    requires ValidInfo(info) && number < U16
    ensures var packet := PacketHead(info, number) + payload;
      Info(packet) == info && SeqOf(packet) == number && Payload(packet) == payload
  {
    var packet := PacketHead(info, number) + payload;
    WordReads(packet, 0, info.totalLen);
    assert packet[4..6] == Le16(number) && packet[6..8] == Le16(info.totalSeq);
    HalfReads(packet, 4, number);
    HalfReads(packet, 6, info.totalSeq);
    WordReads(packet, 8, info.os0ExAddr);
    WordReads(packet, 12, info.osHdAddr);
    WordReads(packet, 16, info.os0FlashAddr);
    WordReads(packet, 20, info.os1FlashAddr);
  }

  /** IMG_HEAD with status 1: the eight little-endian words the boot loader looks for. */
  function ImageHead(info: ImageInfo, crc: nat): (r: seq<byte>)
    requires ValidInfo(info) && crc < U32
    ensures |r| == 32
  {
    Le32(info.os1FlashAddr) + Le32(info.totalLen) + Le32(info.os0ExAddr) + Le32(info.os0FlashAddr)
    + Le32(info.osHdAddr) + Le32(crc) + Le32(1) + Le32(0)
  }

  /** Where and how long the image is, where the system runs, lies and has its header, the CRC, and status 1. */
  function HeadWords(info: ImageInfo, crc: nat): (r: seq<nat>)
    ensures |r| == 8
  {
    [info.os1FlashAddr, info.totalLen, info.os0ExAddr, info.os0FlashAddr, info.osHdAddr, crc, 1, 0]
  }

  /** What the boot loader reads at `at`. */
  predicate Announces(cells: seq<byte>, at: nat, info: ImageInfo, crc: nat) {
    && at + 32 <= |cells|
    && WordsAt(cells, at, 8) == HeadWords(info, crc)
  }

  lemma ImageHeadReads(cells: seq<byte>, at: nat, info: ImageInfo, crc: nat)
    requires ValidInfo(info) && crc < U32
    requires at + 32 <= |cells| && cells[at..at + 32] == ImageHead(info, crc)
    ensures Announces(cells, at, info, crc)
  {
    forall k | 0 <= k < 8
      ensures WordsAt(cells, at, 8)[k] == HeadWords(info, crc)[k]
    {
      WordAt(cells, at, 8, k);
      HeadWordIs(info, crc, k);
      WordOf(cells, at, ImageHead(info, crc), 4 * k, HeadWords(info, crc)[k]);
    }
  }

  lemma HeadWordIs(info: ImageInfo, crc: nat, k: nat)
    requires ValidInfo(info) && crc < U32 && k < 8
    ensures HeadWords(info, crc)[k] < U32 && ImageHead(info, crc)[4 * k..4 * k + 4] == Le32(HeadWords(info, crc)[k])
  {
  }

  /** A packet store_block can be given without reading outside it or overrunning its 1024-byte readback buffer. */
  predicate PacketSize(packet: seq<byte>) {
    HEADER_LEN <= |packet| <= PACKET_LEN
  }

  /** The write position, the running CRC and the flash. */
  datatype Store = Store(cells: seq<byte>, addr: nat, crc: nat)

  predicate ValidStore(st: Store) {
    |st.cells| == ADDRESS_SPACE
  }

  function Erase(cells: seq<byte>, flashSize: nat, address: nat): (r: seq<byte>)
    requires |cells| == ADDRESS_SPACE && ChipSize(flashSize)
    ensures |r| == |cells|
  {
    if SectorBase(address) >= flashSize then cells else Erased(cells, SectorBase(address))
  }

  function Trailer(packet: seq<byte>): nat
    requires HEADER_LEN <= |packet|
  {
    U32At(packet, |packet| - CRC_LEN)
  }

  /** The CRC at the end of the last packet is read back, wherever the packet ends. */
  lemma TrailerReads(info: ImageInfo, number: nat, data: seq<byte>, crc: nat)
    requires ValidInfo(info) && number < U16 && crc < U32
    ensures Trailer(PacketHead(info, number) + (data + Le32(crc))) == crc
  {
    var packet := PacketHead(info, number) + (data + Le32(crc));
    WordReads(packet, |packet| - CRC_LEN, crc);
  }

  /** The decision about the header: it is written when the CRC agrees with the packet's trailer. */
  function Headed(cells: seq<byte>, flashSize: nat, info: ImageInfo, crc: nat, trailer: nat): (r: seq<byte>)
    requires |cells| == ADDRESS_SPACE && ChipSize(flashSize)
    requires ValidInfo(info) && trailer < U32
    ensures |r| == |cells|
  {
    if crc != trailer then cells
    else Write(Erase(cells, flashSize, info.osHdAddr), flashSize, info.osHdAddr, ImageHead(info, trailer))
  }

  function Activated(cells: seq<byte>, flashSize: nat, crc32: Crc, crc: nat, packet: seq<byte>): (r: (seq<byte>, nat))
    requires |cells| == ADDRESS_SPACE && ChipSize(flashSize) && PacketSize(packet)
    ensures |r.0| == |cells|
  {
    var final := crc32(packet[..|packet| - CRC_LEN], crc);
    (Headed(cells, flashSize, Info(packet), final, Trailer(packet)), final)
  }

  /** What one call of store_block does to the store. */
  function Commit(st: Store, flashSize: nat, crc32: Crc, block: nat, packet: seq<byte>): (r: Store)
    requires ValidStore(st) && ChipSize(flashSize) && PacketSize(packet)
    ensures ValidStore(r)
  {
    var info := Info(packet);
    var addr := if block == 0 then info.os1FlashAddr else st.addr;
    var crc := if block == 0 then 0 else st.crc;
    var erased := AfterErase(st.cells, flashSize, addr);
    if !InWindow(addr) then Store(erased, addr, crc)
    else
      var written := Write(erased, flashSize, addr, Payload(packet));
      var next := addr + |packet| - HEADER_LEN;
      if SeqOf(packet) != info.totalSeq then Store(written, next, crc32(packet, crc))
      else
        var (cells, final) := Activated(written, flashSize, crc32, crc, packet);
        Store(cells, next, final)
  }

  /**
   What a call must do. It starts from the image's target for number 0 and where the last one ended otherwise.
   Outside 0x27000 to 0x200000 it programs nothing and moves nothing: the flash is as before but for the sector
   erased at a boundary. Inside, the payload is programmed, the position moves past it and the CRC takes in the
   packet; without its trailer for the last one, which programs no more unless the CRC agrees.
   */
  ghost predicate CallDone(st: Store, after: Store, flashSize: nat, crc32: Crc, block: nat, packet: seq<byte>)
    requires ValidStore(st) && ChipSize(flashSize) && PacketSize(packet)
  {
    var info := Info(packet);
    var (at, c) := if block == 0 then (info.os1FlashAddr, 0) else (st.addr, st.crc);
    var erased :=
      if at % SECTOR == 0 && SectorBase(at) < flashSize then Erased(st.cells, SectorBase(at)) else st.cells;
    if at < 0x2_7000 || 0x20_0000 <= at then after == Store(erased, at, c)
    else
      && after.addr == at + |packet| - 24
      && after.crc == crc32(if SeqOf(packet) == info.totalSeq then packet[..|packet| - 4] else packet, c)
      && (SeqOf(packet) != info.totalSeq || after.crc != Trailer(packet) ==>
            after.cells == Write(erased, flashSize, at, Payload(packet)))
  }

  lemma CommitMeets(st: Store, flashSize: nat, crc32: Crc, block: nat, packet: seq<byte>)
    requires ValidStore(st) && ChipSize(flashSize) && PacketSize(packet)
    ensures CallDone(st, Commit(st, flashSize, crc32, block, packet), flashSize, crc32, block, packet)
  {
  }

  class ImageStore {
    const flash: FlashDriver
    const crc32: Crc
    var osDataAddr: nat
    var tftpCrc: nat

    ghost function View(): Store
      reads this, flash
    {
      Store(flash.cells, osDataAddr, tftpCrc)
    }

    constructor (flash: FlashDriver, crc32: Crc)
      requires flash.Valid()
      ensures this.flash == flash && this.crc32 == crc32 && View() == Store(flash.cells, 0x8_C000, 0)
    {
      this.flash, this.crc32 := flash, crc32;
      osDataAddr, tftpCrc := 0x8_C000, 0;
    }

    method Program(data: seq<byte>, address: nat)
      requires flash.Valid()
      modifies flash
      ensures flash.Valid()
      ensures flash.cells == Write(old(flash.cells), flash.flashSize, address, data)
    {
      flash.WriteData(data, address, |data|);
      assert data[..|data|] == data;
    }

    /** The CRC decision on the last packet, and the image header it may unlock. */
    method CheckAndActivate(src: seq<byte>)
      requires flash.Valid() && PacketSize(src)
      modifies this`tftpCrc, flash
      ensures flash.Valid()
      ensures (flash.cells, tftpCrc) == Activated(old(flash.cells), flash.flashSize, crc32, old(tftpCrc), src)
    {
      var info, orCrc := Info(src), Trailer(src);
      tftpCrc := crc32(src[..|src| - CRC_LEN], tftpCrc);
      if tftpCrc == orCrc {
        flash.EraseSector(info.osHdAddr);
        Program(ImageHead(info, orCrc), info.osHdAddr);
      }
    }

    method Put(block: nat, src: seq<byte>)
      requires flash.Valid() && PacketSize(src)
      modifies this, flash
      ensures flash.Valid()
      ensures View() == Commit(old(View()), flash.flashSize, crc32, block, src)
      ensures CallDone(old(View()), View(), flash.flashSize, crc32, block, src)
    {
      CommitMeets(View(), flash.flashSize, crc32, block, src);
      var info := Info(src);
      if block == 0 {
        osDataAddr := info.os1FlashAddr;
        tftpCrc := 0;
      }
      if osDataAddr % SECTOR == 0 {
        flash.EraseSector(osDataAddr);
      }
      if osDataAddr >= WINDOW_HIGH || osDataAddr < WINDOW_LOW {
        return;
      }
      Program(Payload(src), osDataAddr);
      if SeqOf(src) != info.totalSeq {
        tftpCrc := crc32(src, tftpCrc);
      } else {
        CheckAndActivate(src);
      }
      osDataAddr := osDataAddr + |src| - HEADER_LEN;
    }
  }

  /** The store after packets 0..k-1, each passed with its own number. */
  function RunTo(st: Store, flashSize: nat, crc32: Crc, packets: seq<seq<byte>>, k: nat): (r: Store)
    requires ValidStore(st) && ChipSize(flashSize) && k <= |packets|
    requires forall i :: 0 <= i < |packets| ==> PacketSize(packets[i])
    ensures ValidStore(r)
  {
    if k == 0 then st else Commit(RunTo(st, flashSize, crc32, packets, k - 1), flashSize, crc32, k - 1, packets[k - 1])
  }

  /** The payloads of the first k packets, in order. */
  function Payloads(packets: seq<seq<byte>>, k: nat): seq<byte>
    requires k <= |packets| && forall i :: 0 <= i < |packets| ==> PacketSize(packets[i])
  {
    if k == 0 then [] else Payloads(packets, k - 1) + Payload(packets[k - 1])
  }

  /** The fold of the CRC over the first k whole packets. */
  function CrcOf(crc32: Crc, packets: seq<seq<byte>>, k: nat): nat
    requires k <= |packets|
  {
    if k == 0 then 0 else crc32(packets[k - 1], CrcOf(crc32, packets, k - 1))
  }

  /** The CRC compared in the end: the fold over every packet but the last one's trailing four bytes. */
  function FinalCrc(crc32: Crc, packets: seq<seq<byte>>): nat
    requires 0 < |packets| && PacketSize(packets[|packets| - 1])
  {
    var last := packets[|packets| - 1];
    crc32(last[..|last| - CRC_LEN], CrcOf(crc32, packets, |packets| - 1))
  }

  /** The packets of one image: constant header fields, numbered 1..n, all full but the last. */
  predicate ImagePackets(packets: seq<seq<byte>>, info: ImageInfo) {
    && 0 < |packets| == info.totalSeq
    && (forall i :: 0 <= i < |packets| ==>
          PacketSize(packets[i]) && Info(packets[i]) == info && SeqOf(packets[i]) == i + 1)
    && (forall i :: 0 <= i < |packets| - 1 ==> |packets[i]| == PACKET_LEN)
    && HEADER_LEN + CRC_LEN <= |packets[|packets| - 1]|
  }

  function ImageEnd(info: ImageInfo, packets: seq<seq<byte>>): nat
    requires forall i :: 0 <= i < |packets| ==> PacketSize(packets[i])
  {
    info.os1FlashAddr + RoundUp(|Payloads(packets, |packets|)|)
  }

  /** A sector-aligned target in the window, and a header that stays inside one sector apart from the image. */
  predicate GoodPlacement(packets: seq<seq<byte>>, info: ImageInfo, flashSize: nat)
    requires forall i :: 0 <= i < |packets| ==> PacketSize(packets[i])
  {
    && info.os1FlashAddr % SECTOR == 0 && WINDOW_LOW <= info.os1FlashAddr
    && info.os1FlashAddr + |Payloads(packets, |packets|)| <= Min(WINDOW_HIGH, flashSize)
    && info.osHdAddr < flashSize && info.osHdAddr % SECTOR + 32 <= SECTOR
    && (SectorBase(info.osHdAddr) + SECTOR <= info.os1FlashAddr || ImageEnd(info, packets) <= SectorBase(info.osHdAddr))
  }

  lemma {:induction false} PayloadsLength(packets: seq<seq<byte>>, info: ImageInfo, k: nat)
    requires ImagePackets(packets, info) && k <= |packets|
    ensures k < |packets| ==> |Payloads(packets, k)| == k * BLOCK
    ensures k == |packets| ==> (k - 1) * BLOCK < |Payloads(packets, k)| <= k * BLOCK
  {
    if k > 0 {
      PayloadsLength(packets, info, k - 1);
    }
  }

  lemma {:induction false} PayloadsGrow(packets: seq<seq<byte>>, k: nat, n: nat)
    requires forall i :: 0 <= i < |packets| ==> PacketSize(packets[i])
    requires k <= n <= |packets|
    ensures |Payloads(packets, k)| <= |Payloads(packets, n)|
    decreases n - k
  {
    if k < n {
      PayloadsGrow(packets, k + 1, n);
    }
  }

  /** The write position a call with number k starts from. */
  function StartOf(st: Store, block: nat, info: ImageInfo): Store {
    if block == 0 then Store(st.cells, info.os1FlashAddr, 0) else st
  }

  /** Part of Commit that is the same on the last packet: the payload joins the image. */
  lemma PayloadJoins(st: Store, before: seq<byte>, flashSize: nat, packets: seq<seq<byte>>, info: ImageInfo, k: nat)
    requires ImagePackets(packets, info) && ChipSize(flashSize) && GoodPlacement(packets, info, flashSize)
    requires k < |packets| && ValidStore(st) && st.addr == info.os1FlashAddr + |Payloads(packets, k)|
    requires Image(st.cells, before, info.os1FlashAddr, Payloads(packets, k), ImageEnd(info, packets))
    ensures InWindow(st.addr)
    ensures Image(Write(AfterErase(st.cells, flashSize, st.addr), flashSize, st.addr, Payload(packets[k])),
                  before, info.os1FlashAddr, Payloads(packets, k + 1), ImageEnd(info, packets))
  {
    PayloadBounds(packets, info, flashSize, k);
    AppendBlock(st.cells, before, flashSize, info.os1FlashAddr, Payloads(packets, k), st.addr,
                Payload(packets[k]), ImageEnd(info, packets));
  }

  lemma PayloadBounds(packets: seq<seq<byte>>, info: ImageInfo, flashSize: nat, k: nat)
    requires ImagePackets(packets, info) && ChipSize(flashSize) && k < |packets|
    requires GoodPlacement(packets, info, flashSize)
    ensures var (base, data) := (info.os1FlashAddr, Payloads(packets, k));
      && |data| % BLOCK == 0 && InWindow(base + |data|) && base + |data| < flashSize
      && SectorsEnd(base, |data|) <= ImageEnd(info, packets)
    ensures Payloads(packets, k + 1) == Payloads(packets, k) + Payload(packets[k]) && |Payload(packets[k])| <= BLOCK
  {
    PayloadRoom(packets, info, k);
  }

  lemma PayloadRoom(packets: seq<seq<byte>>, info: ImageInfo, k: nat)
    requires ImagePackets(packets, info) && k < |packets|
    ensures |Payloads(packets, k)| == k * BLOCK && k * BLOCK % BLOCK == 0
    ensures Payloads(packets, k + 1) == Payloads(packets, k) + Payload(packets[k])
    ensures k * BLOCK < |Payloads(packets, |packets|)|
    ensures RoundUp(k * BLOCK + 1) <= RoundUp(|Payloads(packets, |packets|)|)
  {
    PayloadsLength(packets, info, k);
    PayloadsLength(packets, info, k + 1);
    PayloadsGrow(packets, k + 1, |packets|);
    BlockEndAt(k, |Payloads(packets, |packets|)|);
  }

  lemma BlockEndAt(k: nat, n: nat)
    requires k * BLOCK < n
    ensures k * BLOCK % BLOCK == 0 && RoundUp(k * BLOCK + 1) <= RoundUp(n)
  {
    DivModUnique(k * BLOCK, BLOCK, k, 0);
    RoundUpMonotone(k * BLOCK + 1, n);
  }

  /** What a call inside the window does, by the packet's number. */
  lemma CommitParts(st: Store, flashSize: nat, crc32: Crc, block: nat, packet: seq<byte>)
    requires ValidStore(st) && ChipSize(flashSize) && PacketSize(packet)
    requires InWindow(StartOf(st, block, Info(packet)).addr)
    ensures var (info, now) := (Info(packet), StartOf(st, block, Info(packet)));
      var r := Commit(st, flashSize, crc32, block, packet);
      var written := Write(AfterErase(st.cells, flashSize, now.addr), flashSize, now.addr, Payload(packet));
      if SeqOf(packet) != info.totalSeq then
        r == Store(written, now.addr + |packet| - HEADER_LEN, crc32(packet, now.crc))
      else
        && r.crc == crc32(packet[..|packet| - CRC_LEN], now.crc)
        && r.cells == Headed(written, flashSize, info, r.crc, Trailer(packet))
  {
  }

  /** Before the call for packet k: the image so far is in place, and the CRC is that of the packets so far. */
  ghost predicate Ready(now: Store, before: seq<byte>, crc32: Crc, packets: seq<seq<byte>>, info: ImageInfo, k: nat)
    requires ImagePackets(packets, info) && k < |packets|
  {
    && ValidStore(now) && now.addr == info.os1FlashAddr + |Payloads(packets, k)| && now.crc == CrcOf(crc32, packets, k)
    && Image(now.cells, before, info.os1FlashAddr, Payloads(packets, k), ImageEnd(info, packets))
  }

  /** A call for a packet that is not the last makes the store ready for the next one. */
  lemma CallJoins(st: Store, next: Store, before: seq<byte>, flashSize: nat, crc32: Crc, packets: seq<seq<byte>>,
                  info: ImageInfo, k: nat)
    requires ImagePackets(packets, info) && ChipSize(flashSize) && GoodPlacement(packets, info, flashSize)
    requires ValidStore(st) && k + 1 < |packets| && Ready(StartOf(st, k, info), before, crc32, packets, info, k)
    requires next == Commit(st, flashSize, crc32, k, packets[k])
    ensures Ready(StartOf(next, k + 1, info), before, crc32, packets, info, k + 1)
  {
    PayloadJoins(StartOf(st, k, info), before, flashSize, packets, info, k);
    CommitParts(st, flashSize, crc32, k, packets[k]);
    PayloadBounds(packets, info, flashSize, k);
  }

  /** The last call: the payload joins the image, then the CRC decides about the header. */
  lemma LastCall(st: Store, done: Store, before: seq<byte>, flashSize: nat, crc32: Crc, packets: seq<seq<byte>>,
                 info: ImageInfo)
    returns (written: seq<byte>)
    requires ImagePackets(packets, info) && ChipSize(flashSize) && GoodPlacement(packets, info, flashSize)
    requires ValidStore(st) && Ready(StartOf(st, |packets| - 1, info), before, crc32, packets, info, |packets| - 1)
    requires done == Commit(st, flashSize, crc32, |packets| - 1, packets[|packets| - 1])
    ensures Image(written, before, info.os1FlashAddr, Payloads(packets, |packets|), ImageEnd(info, packets))
    ensures done.crc == FinalCrc(crc32, packets)
    ensures done.cells == Headed(written, flashSize, info, done.crc, Trailer(packets[|packets| - 1]))
  {
    var n := |packets|;
    var now := StartOf(st, n - 1, info);
    PayloadJoins(now, before, flashSize, packets, info, n - 1);
    CommitParts(st, flashSize, crc32, n - 1, packets[n - 1]);
    written := Write(AfterErase(now.cells, flashSize, now.addr), flashSize, now.addr, Payload(packets[n - 1]));
  }

  lemma {:induction false} ImageGrows(st: Store, flashSize: nat, crc32: Crc, packets: seq<seq<byte>>, info: ImageInfo,
                                      k: nat)
    returns (now: Store)
    requires ImagePackets(packets, info) && ChipSize(flashSize) && GoodPlacement(packets, info, flashSize)
    requires ValidStore(st) && k < |packets|
    ensures now == RunTo(st, flashSize, crc32, packets, k)
    ensures Ready(StartOf(now, k, info), st.cells, crc32, packets, info, k)
  {
    if k == 0 {
      now := st;
    } else {
      var last := ImageGrows(st, flashSize, crc32, packets, info, k - 1);
      now := Commit(last, flashSize, crc32, k - 1, packets[k - 1]);
      CallJoins(last, now, st.cells, flashSize, crc32, packets, info, k - 1);
    }
  }

  /**
   What a run over all packets leaves: the CRC is the fold over every packet but the last one's trailing four
   bytes, and the image is in place; the header is too if that fold equals those bytes. Nothing else has changed.
   */
  ghost predicate Committed(done: Store, before: seq<byte>, crc32: Crc, packets: seq<seq<byte>>, info: ImageInfo)
    requires ImagePackets(packets, info)
  {
    var (image, final, end) := (Payloads(packets, |packets|), FinalCrc(crc32, packets), ImageEnd(info, packets));
    && done.crc == final
    && if final == Trailer(packets[|packets| - 1])
       then ImageAndHeader(done.cells, before, image, end, info, final)
       else ImageOnly(done.cells, before, info.os1FlashAddr, image, end)
  }

  /**
   The whole image: after the last packet the flash holds the payloads at the target and the running CRC
   is the fold over every packet but the last packet's trailing four bytes. The boot loader's header is
   programmed exactly when that fold equals those four bytes; otherwise nothing outside the image's
   sectors has changed.
   */
  lemma ImageCommitted(st: Store, flashSize: nat, crc32: Crc, packets: seq<seq<byte>>, info: ImageInfo)
    requires ImagePackets(packets, info) && ChipSize(flashSize) && GoodPlacement(packets, info, flashSize)
    requires ValidStore(st)
    ensures Committed(RunTo(st, flashSize, crc32, packets, |packets|), st.cells, crc32, packets, info)
  {
    var last := ImageGrows(st, flashSize, crc32, packets, info, |packets| - 1);
    var done := LastOfRun(st, flashSize, crc32, packets, last);
    LastCallCommits(last, done, st.cells, flashSize, crc32, packets, info);
  }

  lemma LastOfRun(st: Store, flashSize: nat, crc32: Crc, packets: seq<seq<byte>>, last: Store) returns (done: Store)
    requires ValidStore(st) && ChipSize(flashSize) && 0 < |packets|
    requires forall i :: 0 <= i < |packets| ==> PacketSize(packets[i])
    requires last == RunTo(st, flashSize, crc32, packets, |packets| - 1)
    ensures done == RunTo(st, flashSize, crc32, packets, |packets|)
    ensures ValidStore(last) && done == Commit(last, flashSize, crc32, |packets| - 1, packets[|packets| - 1])
  {
    done := Commit(last, flashSize, crc32, |packets| - 1, packets[|packets| - 1]);
  }

  lemma LastCallCommits(st: Store, done: Store, before: seq<byte>, flashSize: nat, crc32: Crc, packets: seq<seq<byte>>,
                        info: ImageInfo)
    requires ImagePackets(packets, info) && ChipSize(flashSize) && GoodPlacement(packets, info, flashSize)
    requires ValidStore(st) && Ready(StartOf(st, |packets| - 1, info), before, crc32, packets, info, |packets| - 1)
    requires done == Commit(st, flashSize, crc32, |packets| - 1, packets[|packets| - 1])
    ensures Committed(done, before, crc32, packets, info)
  {
    var written := LastCall(st, done, before, flashSize, crc32, packets, info);
    HeaderDecides(done, written, before, flashSize, packets, info);
  }

  lemma HeaderDecides(done: Store, written: seq<byte>, before: seq<byte>, flashSize: nat, packets: seq<seq<byte>>,
                      info: ImageInfo)
    requires ImagePackets(packets, info) && ChipSize(flashSize) && GoodPlacement(packets, info, flashSize)
    requires Image(written, before, info.os1FlashAddr, Payloads(packets, |packets|), ImageEnd(info, packets))
    requires done.cells == Headed(written, flashSize, info, done.crc, Trailer(packets[|packets| - 1]))
    ensures var image := Payloads(packets, |packets|);
      if done.crc == Trailer(packets[|packets| - 1])
      then ImageAndHeader(done.cells, before, image, ImageEnd(info, packets), info, done.crc)
      else ImageOnly(done.cells, before, info.os1FlashAddr, image, ImageEnd(info, packets))
  {
    var image := Payloads(packets, |packets|);
    ImageRead(written, before, info.os1FlashAddr, image, ImageEnd(info, packets));
    HeaderAdded(written, before, flashSize, info, Trailer(packets[|packets| - 1]), image, ImageEnd(info, packets));
  }

  /** The image is in place and nothing outside its sectors has changed. */
  ghost predicate ImageOnly(cells: seq<byte>, before: seq<byte>, base: nat, image: seq<byte>, end: nat) {
    && |cells| == |before| == ADDRESS_SPACE && base + |image| <= ADDRESS_SPACE
    && cells[base..base + |image|] == image
    && forall a :: 0 <= a < base || end <= a < ADDRESS_SPACE ==> cells[a] == before[a]
  }

  /** The image is in place, the header announces it, and nothing outside their sectors has changed. */
  ghost predicate ImageAndHeader(cells: seq<byte>, before: seq<byte>, image: seq<byte>, end: nat, info: ImageInfo,
                                 crc: nat) {
    var (base, at) := (info.os1FlashAddr, info.osHdAddr);
    && |cells| == |before| == ADDRESS_SPACE && base + |image| <= ADDRESS_SPACE
    && cells[base..base + |image|] == image
    && Announces(cells, at, info, crc)
    && forall a :: 0 <= a < ADDRESS_SPACE && !(base <= a < end) && !(SectorBase(at) <= a < SectorBase(at) + SECTOR)
         ==> cells[a] == before[a]
  }

  lemma ImageRead(cells: seq<byte>, before: seq<byte>, base: nat, image: seq<byte>, end: nat)
    requires Image(cells, before, base, image, end)
    ensures ImageOnly(cells, before, base, image, end)
  {
  }

  lemma HeaderAdded(cells: seq<byte>, before: seq<byte>, flashSize: nat, info: ImageInfo, crc: nat, image: seq<byte>,
                    end: nat)
    requires ChipSize(flashSize) && ImageOnly(cells, before, info.os1FlashAddr, image, end)
    requires ValidInfo(info) && crc < U32
    requires info.osHdAddr < flashSize && info.osHdAddr % SECTOR + 32 <= SECTOR
    requires info.os1FlashAddr + |image| <= end
    requires SectorBase(info.osHdAddr) + SECTOR <= info.os1FlashAddr || end <= SectorBase(info.osHdAddr)
    ensures var at := info.osHdAddr;
      var after := Write(Erase(cells, flashSize, at), flashSize, at, ImageHead(info, crc));
      ImageAndHeader(after, before, image, end, info, crc)
  {
    HeaderWritten(cells, flashSize, info, crc);
    var (base, at) := (info.os1FlashAddr, info.osHdAddr);
    var after := Write(Erase(cells, flashSize, at), flashSize, at, ImageHead(info, crc));
    assert forall a :: base <= a < base + |image| ==> after[a] == cells[a];
    assert after[base..base + |image|] == cells[base..base + |image|];
    ImageHeadReads(after, at, info, crc);
  }

  /** Erasing the header's sector and programming the header changes that sector only. */
  lemma HeaderWritten(cells: seq<byte>, flashSize: nat, info: ImageInfo, crc: nat)
    requires |cells| == ADDRESS_SPACE && ChipSize(flashSize)
    requires ValidInfo(info) && crc < U32
    requires info.osHdAddr < flashSize && info.osHdAddr % SECTOR + 32 <= SECTOR
    ensures var (head, at) := (SectorBase(info.osHdAddr), info.osHdAddr);
      var after := Write(Erase(cells, flashSize, at), flashSize, at, ImageHead(info, crc));
      && head <= at && at + 32 <= head + SECTOR
      && after[at..at + 32] == ImageHead(info, crc)
      && forall a :: 0 <= a < head || head + SECTOR <= a < ADDRESS_SPACE ==> after[a] == cells[a]
  {
    var at := info.osHdAddr;
    SectorBaseIs(at);
    SectorFits(flashSize, at);
    InsideIsAccepted(flashSize, at, 32);
    ProgramBlank(Erase(cells, flashSize, at), at, ImageHead(info, crc));
  }
}
