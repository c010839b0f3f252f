# Verified model of the BK7231 firmware's algorithmic cores

This project models the parts of the beken378 firmware that are algorithms rather than register access, and
proves what they are for. The hardware is modelled as small abstract devices: NOR flash whose programming can
only clear bits (`old AND new`) and whose 4 KiB sectors erase to 0xFF, a DMA engine that advances in fixed steps
and stops at a pause address, a two-wire bus that records its symbols, and datagram channels that lose and
duplicate but do not reorder. Nothing here ran the firmware.

`dafny verify dfyconfig.toml` checks everything.

| files | firmware | what is proved |
|---|---|---|
| Flash, FlashImage, HttpOta | flash.c, utils_httpc.c | A download in any fragmentation ends up in flash exactly, through sector erases and 32-byte line programs. |
| StoreBlock | tftpclient.c (store_block) | An in-order run of packets leaves the image at its target, and the boot header is written if and only if the CRC agrees. |
| Tftp, TftpNetwork, TftpOta | tftpclient.c | Client and stop-and-wait server over lossy, duplicating channels: every prefix of every run is safe; composed with store_block, the update is safe end to end. |
| DoublyList, Intc | doubly_list.h, intc.c | Heap proofs of the intrusive circular list, and of the interrupt dispatcher whose table, mask and sorted list always agree. |
| RingQueue, RingBuffer, RingDmaWrite, RingDmaRead, Sfifo, Kfifo | ring_buffer*.c, ftpd.c, fifo.h | Five circular buffers with five wrap conventions refine one queue, four of them under interleaving or failures of the other side. |
| I2c1, I2c2 | i2c1.c, i2c2.c | Interrupt-driven transfers put exactly the prescribed symbols on the bus, for any answers of the slave. |
| Base64 | utils_httpc.c | The 32-bit shift-register encoder computes section 4 of RFC 4648, and the encoding is inverted by a strict decoder. |
| OsClock | os_clock.c | The tickless catch-up equals that many ticks, and the two counters stay within one second over all runs. |
| Tlv | app_drone.c | The nested search inverts the encoder of the configuration tree. |
| Bytes, Words | | 32-bit arithmetic, masks, bitwise AND, little-endian words. |

A ghost variable such as `fed`, `accepted`, `delivered` or `bus` records what has gone through an object, so that
a method's contract can speak about the whole stream. Schedules of the other side are parameters
(`irq: nat -> Arrivals`, `dma`, `acks`, `slave`, `events`) and every result holds for all of them; `turns` counts
the moments at which the other side of a ring buffer could act.

## Findings

Properties that the code does not have everywhere, each with a failing input and the exact condition under which
it does.

- Writes past the chip. The bound check of beken378/driver/flash/flash.c:508-514 uses the line-aligned address.
  With a 1 MB chip, a write of 32 bytes to 0xFFFFF is accepted and changes the 31 bytes after the chip
  (`PastTheEndExample`). An accepted write stays inside exactly when its own end does (`AcceptedStaysInside`).
- Re-registration of an interrupt. beken378/driver/intc/intc.c:66-126 links the node again when the walk does not
  meet its old entry or an equal priority first. Registering 1 at priority 5, 2 at 7 and then 2 at 1 leaves no
  list at the head (`RegisterTwice`, `UnsafeExample`). It is harmless exactly if the interrupt is new, the priority
  is taken, or the interrupt's old priority is no larger than that of any interrupt above the new priority (`Safe`,
  in the contract of `Controller.Register`).
- Acceptance by rb_write. beken378/driver/audio/ring_buffer.c:109-175 adds the safe interval to the size in 32
  bits, so that sizes of 2^32 - 4 and above are always accepted. Otherwise a nonempty write is accepted exactly
  when it fits the reported free size (`AcceptedIffFree`).
- Clearing a DMA ring. rb_clear_dma_write and rb_clear_dma_read (beken378/driver/audio/ring_buffer_dma_write.c:37-51,
  beken378/driver/audio/ring_buffer_dma_read.c:46-54) do not reset the engine. The rings are consistent and empty
  afterwards exactly under the conditions in `RingDmaWrite.Ring.Clear` and `RingDmaRead.Ring.Clear`; a DMA cursor
  anywhere but at the start of the buffer breaks emptiness.
- Size of an sfifo. beken378/app/ftp/ftpd.c:264-293 doubles a signed 32-bit size and cannot stop for requests of
  2^30 and more, which its limit check lets through (`SizeExists`).
- Long transfers. store_block takes argument 0 for the first block (beken378/app/tftp/tftpclient.c:480-494), and the
  16-bit block number makes block 65536, counted from 0, look like it: positions are right exactly for up to
  65535 stored blocks, and the restart happens exactly for more than 65536 (`PositionsAreRight`).
- First block. A first DATA packet that is not block 1 is announced as an error with "Starting again"
  (beken378/app/tftp/tftpclient.c:258-277), but the client takes its sender for the server and no longer waits for
  block 1: sent once more, the packet is stored exactly if its number is not 0 modulo 65536 (`WrongFirstBlock`).
- Redirected retransmissions. recvfrom overwrites the address the client sends to
  (beken378/app/tftp/tftpclient.c:379-433), so after a datagram from a stranger the next retransmission misses the
  server. It arrives exactly when the last datagram of all came from the server's port (`RetransmissionTarget`);
  section 4 of RFC 1350 wants strangers not to disturb a transfer. The same overwriting can keep a transfer from
  ever starting (`CompletionIsPossible`).
- Retry counter. beken378/app/tftp/tftpclient.c:318-334 never resets it, so the timer sends at most ten messages in a
  whole transfer, the first request included (`RetriesAreBounded`).
- Last block of an update. A file whose length is a multiple of 1048 ends with an empty block, of which store_block
  reads a 24-byte header. All blocks are long enough exactly when the length modulo 1048 is at least 24
  (`BlocksAreCommittable`).
- I2C counts. RemainNum of i2c1 is 16 bits wide (beken378/driver/i2c/i2c1.c:14-23): a write of n bytes sends
  n modulo 65536 of them, and a read of 0 bytes stores 65536 (`I2c1.Write`, `Received`). remain_data_cnt of i2c2 is
  8 bits wide (beken378/driver/i2c/i2c2.c:304): a write sends n modulo 256 bytes, and a read is exact for
  1 <= n <= 255 plus its first burst (`TotalIsExact`); a read of 0 bytes stores 256.
- I2C results. A write of i2c1 returns 0 whatever the slave answers, and so does a read whose second address is
  refused; both transfers of i2c2 always return 0, and a refused inner address of a read goes unnoticed
  (`I2c1.Write`, `I2c1.Read`, `I2c2.Write`, `I2c2.Read`).
- Documentation. The comment of kfifo_alloc (beken378/common/fifo.h:50-57) says that the size is rounded up to a
  power of two; the code does not round it. kfifo_init's check is exact for nonzero sizes (`PowerOfTwoCheck`).

## Model

| member | source | states |
|---|---|---|
| Flash.FlashDriver.ReadData | beken378/driver/flash/flash.c:463-503 | The buffer receives exactly the requested bytes at any alignment and length, and the rest of it is untouched. |
| Flash.FlashDriver.WriteData | beken378/driver/flash/flash.c:505-561 | An accepted write ANDs the data into [address, address+len) and changes no other byte, although whole padded lines are programmed; a refused one changes nothing. |
| Flash.FlashDriver.EraseSector | beken378/driver/flash/flash.c:428-447 | Erases the sector of the address, unless it starts past the chip. |
| Flash.PaddedLine | beken378/driver/flash/flash.c:516-561 | A line padded with what it already holds programs like the chunk alone. |
| Flash.ProgramBlank | beken378/driver/flash/flash.c:505-561 | Data programmed on erased cells reads back, and nothing around it changes. |
| Bytes.AndIsBitwise | beken378/driver/flash/flash.c:505-561 | The device: programming leaves a bit set exactly if it was set and is set in the data. |
| Flash.AcceptedStaysInside | beken378/driver/flash/flash.c:508-514 | An accepted write exceeds the chip by at most 31 bytes, and leaves everything past it alone exactly when address + len is at most the chip's size. |
| Flash.PastTheEndExample | beken378/driver/flash/flash.c:508-514 | An accepted write that does change bytes past the chip. |
| FlashImage.AppendBlock | beken378/app/http/utils_httpc.c:435-480 | Erase on a sector boundary and write: the block extends the image, lands only on cells erased in this run and not programmed since, and the rest of the sector stays blank. |
| FlashImage.EraseKeeps | beken378/app/http/utils_httpc.c:441-447 | The erase at the write position spares the image and makes room for a block. |
| HttpOta.HttpFlash.FlashWr | beken378/app/http/utils_httpc.c:435-480 | Erase, range check, write, read-back comparison and advance of the address. |
| HttpOta.HttpFlash.WrToFlash | beken378/app/http/utils_httpc.c:529-555 | Keeps the invariant that flushed blocks and buffer are the bytes fed so far, the former being in flash. |
| HttpOta.NothingProgrammedOutside | beken378/app/http/utils_httpc.c:441-453 | At an address outside the window nothing is programmed. |
| HttpOta.FlushKeeps | beken378/app/http/utils_httpc.c:435-480 | A flush extends the stored image while there is room and leaves it alone afterwards. |
| HttpOta.Download | beken378/app/http/utils_httpc.c:483-555 | For every stream and every fragmentation the flash holds the stream from 0xff000 on, cut off at 0x200000 or the end of the chip; below and from the next sector on nothing changes; a stream that fits reads back without a difference. |
| StoreBlock.ImageStore.Put | beken378/app/tftp/tftpclient.c:463-568 | One call of store_block, whatever the packet's number: from a position outside 0x27000 to 0x200000 nothing is programmed and position and CRC keep their starting values; otherwise the payload is programmed, the position moves past it, the CRC takes in the packet, less the trailer for the last one, and nothing more is programmed unless that CRC agrees. The same as the function the image proofs use. |
| StoreBlock.PacketReads | beken378/app/tftp/tftpclient.h:40-49 | Fields, number and payload of a packet that is laid out word by word in the header's order are read back. |
| StoreBlock.TrailerReads | beken378/app/tftp/tftpclient.c:540 | The CRC at the end of a packet is read back. |
| StoreBlock.ImageCommitted | beken378/app/tftp/tftpclient.c:463-568 | After an in-order run the CRC is the fold over all packets but the last trailer, the image is at its target, and the eight words of the boot header are read at its address if and only if the fold equals the trailer; nothing else changed. |
| StoreBlock.ImageGrows | beken378/app/tftp/tftpclient.c:480-530 | Before each packet the image so far is in place and the running CRC is the fold so far. |
| StoreBlock.ImageHeadReads | beken378/app/tftp/tftpclient.c:542-555 | A boot loader that reads eight words at the header's address finds image address, length, execution address, system address, header address, CRC, 1 and 0, in the order of IMG_HEAD (beken378/app/tftp/tftpclient.h:51-61). |
| Tftp.TftpClient.TftpHandler | beken378/app/tftp/tftpclient.c:160-316 | In every state and from every port: a packet that is neither OACK nor DATA, or that comes from a stranger, only redirects the next send; an OACK is taken over and acknowledged; a first DATA packet other than block 1 is neither stored nor answered; a repeated block is answered only; any other is stored, answered, and ends the transfer if short. The same as the transition function of the protocol proofs. |
| Tftp.WrongFirstBlock | beken378/app/tftp/tftpclient.c:258-300 | A DATA packet sent twice to a client that waits for block 1 is stored at first exactly if it is block 1, and in the end exactly if its number is not 0 modulo 65536. |
| Tftp.TftpClient.TftpSend | beken378/app/tftp/tftpclient.c:65-140 | The message sent, and where to, for each state. |
| Tftp.TftpClient.TftpTimeout | beken378/app/tftp/tftpclient.c:318-334 | Counts, and sends again while the count is at most ten. |
| TftpNetwork.StepKeeps | beken378/app/tftp/tftpclient.c:160-334 | Every event of client, server, strangers and channels, the server's ERROR packets included, keeps the protocol invariant. |
| TftpNetwork.TransferIsSafe | beken378/app/tftp/tftpclient.c:160-334 | In every run the payloads handed to store_block are a prefix of the file's blocks, each once and in order, and success means the whole file. |
| TftpNetwork.StrangersAreIgnored | beken378/app/tftp/tftpclient.c:169-173 | In every run, after the first reply, a datagram from another port changes nothing but the address of the next send. |
| TftpNetwork.PositionsAreRight | beken378/app/tftp/tftpclient.c:272-300 | store_block's argument is the block's position exactly for up to 65535 stored blocks; a restart happens exactly for more than 65536. |
| TftpNetwork.RetransmissionTarget | beken378/app/tftp/tftpclient.c:65-140 | Over all runs: the next retransmission reaches the server exactly when the last datagram received came from its port. |
| TftpNetwork.RetriesAreBounded | beken378/app/tftp/tftpclient.c:318-334 | Over all runs the timer has sent exactly as many messages as it counted, ten at most. |
| TftpNetwork.CompletionIsPossible | beken378/app/tftp/tftpclient.c:160-360 | After any run, some continuation completes the transfer exactly when it has started, a request is on its way, or the timer can still get one through. |
| TftpNetwork.CanComplete | beken378/app/tftp/tftpclient.c:337-372 | From the start, every transfer can complete. |
| TftpOta.UpdateIsSafe | beken378/app/tftp/tftpclient.c:160-568 | Over any loss, duplication, timeouts and strangers: when the client reports success, flash holds the image and the header is there exactly when the CRC agrees. |
| TftpOta.BlocksAreCommittable | beken378/app/tftp/tftpclient.c:463-530 | All blocks of a file are long enough for store_block exactly when its length modulo 1048 is at least 24. |
| DoublyList.ListAdd | beken378/common/doubly_list.h:38-44 | The four pointer writes. |
| DoublyList.ListAddHead | beken378/common/doubly_list.h:54-57 | The node becomes the first of the list. |
| DoublyList.ListAddTail | beken378/common/doubly_list.h:67-70 | The node goes in front of the given member of a ring, and so to the end when that is the head. |
| DoublyList.ListDel | beken378/common/doubly_list.h:79-94 | The ring without the node is a ring; the node no longer points into it. |
| DoublyList.ListDelInit | beken378/common/doubly_list.h:100-104 | The ring without the node is a ring, and the node is an empty list. |
| DoublyList.ListMove | beken378/common/doubly_list.h:111-115 | A node leaves one list and becomes the first of another. |
| DoublyList.ListMoveToFront | beken378/common/doubly_list.h:111-115 | Within one list, the node goes to the front. |
| DoublyList.ListSplice | beken378/common/doubly_list.h:138-161 | The moved nodes precede the old ones, in order. |
| DoublyList.ListSpliceInit | beken378/common/doubly_list.h:170-177 | The same, and the source list is empty. |
| DoublyList.ListSize | beken378/common/doubly_list.h:214-222 | The length, modulo 2^32. |
| DoublyList.NoListAtAll | beken378/common/doubly_list.h:38-44 | Linking a node in front of an earlier one closes a loop that no list starting at the head can contain. |
| Intc.Controller.FindSlot | beken378/driver/intc/intc.c:89-110 | The walk stops at the first entry that is not below the priority. |
| Intc.Controller.Register | beken378/driver/intc/intc.c:66-126 | Safe calls add a new interrupt with a free priority and change nothing otherwise, keeping list, mask and table in agreement; any other call leaves no list at the head. |
| Intc.RegisterTwice | beken378/driver/intc/intc.c:66-126 | Three calls that break the list. |
| Intc.UnsafeExample | beken378/driver/intc/intc.c:66-126 | The condition's failing input. |
| Intc.Controller.ChangeHandler | beken378/driver/intc/intc.c:128-170 | A registered interrupt gets the new handler, nothing else changes. |
| Intc.Controller.HdlEntry | beken378/driver/intc/intc.c:33-64 | Runs exactly the registered handlers whose bit is set, each once, in ascending priority, always the latest handler; the early return skips none. |
| Intc.HandlersServe | beken378/driver/intc/intc.c:33-64 | Walking the list serves exactly the pending registered interrupts in priority order. |
| Intc.ServesIsUnique | beken378/driver/intc/intc.c:33-64 | Only one sequence of handler calls meets that requirement. |
| RingQueue.AcceptedIffFree | beken378/driver/audio/ring_buffer.c:109-193 | A nonempty write is accepted exactly when it fits the reported free size, unless its size is within four of 2^32. |
| RingQueue.SizesAddUp | beken378/driver/audio/ring_buffer.c:177-193 | Fill and free size add up to the usable capacity. |
| RingQueue.RunAppends | beken378/driver/audio/ring_buffer.c:109-175 | Bytes stored behind a run extend it, across the end of the array. |
| RingBuffer.Ring.Write | beken378/driver/audio/ring_buffer.c:109-175 | All or nothing: an accepted write appends to the queue. |
| RingBuffer.Ring.Read | beken378/driver/audio/ring_buffer.c:35-107 | With interrupting writes before every byte and step, n + 3 times in all: the bytes delivered are the next ones in order, at least as many as were there at the start. |
| RingDmaWrite.Ring.EngineStep | beken378/driver/audio/ring_buffer_dma_write.c:18-35 | Away from the pause address the producing engine appends a step, at it nothing; no unread byte is overwritten. |
| RingDmaWrite.Ring.Read | beken378/driver/audio/ring_buffer_dma_write.c:53-138 | With the engine running before every byte and step, n + 4 times in all: delivers the next bytes in order, and the guard between pause address and read position holds throughout. |
| RingDmaWrite.Ring.GetFreeSize | beken378/driver/audio/ring_buffer_dma_write.c:156-171 | What the engine may still write is what is reported free. |
| RingDmaWrite.Ring.Clear | beken378/driver/audio/ring_buffer_dma_write.c:37-51 | The exact engine positions for which the cleared ring is guarded and for which it is empty. |
| RingDmaRead.Ring.EngineStep | beken378/driver/audio/ring_buffer_dma_read.c:19-44 | Away from the pause address the consuming engine emits a step of the oldest bytes of the queue, at it nothing. |
| RingDmaRead.Ring.Write | beken378/driver/audio/ring_buffer_dma_read.c:57-135 | With the engine running before every byte and step: what it emits is always a prefix of what was accepted. |
| RingDmaRead.Ring.Clear | beken378/driver/audio/ring_buffer_dma_read.c:46-54 | The cleared ring is settled and empty exactly when engine and pause address are at the start. |
| Sfifo.InitSize | beken378/app/ftp/ftpd.c:264-293 | The smallest power of two above the request. |
| Sfifo.SizeExists | beken378/app/ftp/ftpd.c:264-293 | Such a size exists among the signed 32-bit numbers exactly for requests below 2^30. |
| Sfifo.UsedIsFill | beken378/app/ftp/ftpd.c:254-257 | The masked signed difference is the number of bytes in the queue, with either name of position 0. |
| Sfifo.Fifo.Write | beken378/app/ftp/ftpd.c:305-334 | Appends as much as there is room for. |
| Sfifo.Fifo.SendData | beken378/app/ftp/ftpd.c:386-428 | Bytes handed to TCP and bytes queued are the bytes accepted, in order; how many go out and where the read position is for every outcome of the one or two tcp_write calls. |
| Kfifo.PowerOfTwoCheck | beken378/common/fifo.h:34-36 | The check size & (size - 1) passes exactly for powers of two. |
| Kfifo.WriteIndex | beken378/common/fifo.h:100-122 | The masked write counter lies as far behind the masked read counter as bytes are used, even across 2^32. |
| Kfifo.Fifo.Put | beken378/common/fifo.h:100-122 | Exactly min(len, room) bytes are appended. |
| Kfifo.Fifo.Get | beken378/common/fifo.h:134-154 | Exactly min(len, used) bytes are taken from the front. |
| Kfifo.Fifo.OutPeek | beken378/common/fifo.h:184-196 | The bytes the next get of that length returns, without a change of state. |
| Kfifo.Fifo.Unused | beken378/common/fifo.h:161-164 | The size less the bytes queued. |
| I2c1.I2c1.IsrWrite | beken378/driver/i2c/i2c1.c:208-241 | The next symbol of the write, or stop and TransDone together. |
| I2c1.I2c1.IsrRead | beken378/driver/i2c/i2c1.c:243-300 | The next symbol of the head, or the byte stored and answered, or stop and TransDone together. |
| I2c1.I2c1.Write | beken378/driver/i2c/i2c1.c:414-460 | For any answers of the slave: address, register and data up to the first refusal, then a stop; complete exactly for fewer than 65536 bytes. |
| I2c1.I2c1.Read | beken378/driver/i2c/i2c1.c:365-412 | Address, register, restart and the bytes read in order, acknowledged but for the last, then a stop; the result for every refusal. |
| I2c1.Received | beken378/driver/i2c/i2c1.c:266-283 | A read stores what was asked for exactly for 1 to 65536 bytes. |
| I2c2.FirstBurstFits | beken378/driver/i2c/i2c2.c:208-259 | For every leftover mode the first burst never takes more than was asked for, unless that is nothing. |
| I2c2.TotalIsExact | beken378/driver/i2c/i2c2.c:497-557 | A read is exact for 1 to 255 bytes plus the first burst, and only then. |
| I2c2.I2c2.SendStart | beken378/driver/i2c/i2c2.c:167-259 | The address byte, and the mode bits added to what was left over. |
| I2c2.ModeIsLongest | beken378/driver/i2c/i2c2.c:208-259 | The mode asked for is that of the longest burst shorter than the read, if there is one, and whether a write has four bytes; the burst sizes of each mode. |
| I2c2.I2c2.IsrFetch | beken378/driver/i2c/i2c2.c:497-557 | A burst is what the mode says, never exceeds what remains, and the next one will not either; stop and TransDone come with the last byte. |
| I2c2.I2c2.WriteInterrupt | beken378/driver/i2c/i2c2.c:372-408 | A data interrupt loads the smaller of what is left and the room its mode leaves in the FIFO, in order, and sets the mode to 0 exactly when less than that room is left after it. |
| I2c2.I2c2.Write | beken378/driver/i2c/i2c2.c:909-961 | For any answers: a prefix of address, inner address and n modulo 256 bytes in order, then a stop; all of it without a refusal. |
| I2c2.I2c2.Read | beken378/driver/i2c/i2c2.c:855-907 | For any answers and leftover mode: the bytes in order and how many, or nothing after a refused start. |
| Base64.DecodeIsInverse | beken378/app/http/utils_httpc.c:63-82 | The strict decoder accepts exactly the encodings and returns what was encoded. |
| Base64.TextRoundTrip | beken378/app/http/utils_httpc.c:63-82 | The same for the characters of the table. |
| Base64.StateGrows | beken378/app/http/utils_httpc.c:68-73 | The digits written for a byte continue the encoding, whatever the 32-bit accumulator has shifted out. |
| Base64.Base64Enc | beken378/app/http/utils_httpc.c:63-82 | The output is the encoding of the string, 4 * ceil(n / 3) characters and a terminator, and decodes to the string. |
| OsClock.Clock.Hdl | beken378/rttos/os_clock.c:38-67 | One tick. |
| OsClock.Clock.UpdateTick | beken378/rttos/os_clock.c:70-91 | The effect of n ticks on all three counters, 32-bit overflow included. |
| OsClock.TicksAre | beken378/rttos/os_clock.c:38-91 | n ticks in closed form. |
| OsClock.RunIs | beken378/rttos/os_clock.c:38-169 | Every run of ticks, catch-ups and resets in closed form. |
| OsClock.Clock.GetSecond | beken378/rttos/os_clock.c:149-158 | The whole seconds in the tick counter. |
| OsClock.SecondsAgree | beken378/rttos/os_clock.c:149-169 | After every run of events, the seconds counter is what fclk_get_second returns, or one more exactly while a reset's phase carries over. |
| Tlv.SearchByType | beken378/app/net_work/app_drone.c:379-405 | The address of the first entry of the type, or 0 exactly if there is none. |
| Tlv.GetParameter | beken378/app/net_work/app_drone.c:407-440 | The nested lookup returns the field the encoder stored, or fails if there is none. |
| Tlv.LookupFirst | beken378/app/net_work/app_drone.c:407-440 | A field of the tree is the field of the first class of the type. |

## Left out

- Flash: the operate register's word traffic, busy waiting, line modes, protection bits and the identification of the chip.
- HTTP: header and chunk parsing, sockets, and the variant that feeds store_block; in chunked mode every chunk restarts at the image base and there is no last flush, so only the content-length mode is modelled.
- Allocation failures and console output everywhere; the read-back comparison of store_block only prints.
- TFTP: the layout of packets and options, the wrap counters printed with progress, and dallying of the server; datagrams that a stranger sends before the first reply are taken not to be OACK or DATA; the server of the network sends no DATA out of order and no ERROR before it has the request, but what the client makes of either is in `TftpHandler`.
- The CRC: co_crc32 is not part of this model; it is a parameter, and results hold for every function.
- DoublyList: list_move_tail and list_switch, which are not used in the firmware.
- Intc: handlers do not re-enter the dispatcher, the mask is the set of its bits, list_entry's address arithmetic is a constant index in the node, and nodes that are not linked point to themselves instead of nowhere; registration through the ICU driver.
- RingBuffer.Ring.Write: atomic, as in the recording direction, where the writer is the interrupt; the source publishes the write position before the wrapped half is copied, so a reader that preempts it is not covered.
- RingDmaWrite, RingDmaRead: the engine moves in whole steps, capacity and read sizes are multiples of a step, and memory is sequentially consistent.
- Sfifo: the queue and its senders run to completion one after the other; FTP commands and files are not modelled.
- Kfifo: kfifo_alloc and kfifo_free, and a size of 0, which passes kfifo_init's check.
- I2c2: slave modes and 10-bit addresses, timeouts and lost arbitration; the hardware raises an interrupt only when the FIFO has room or bytes for the current mode.
- OsClock: the RT-Thread and AliOS variants, and the timer hardware.
- Tlv: configuration areas that are not well formed.
