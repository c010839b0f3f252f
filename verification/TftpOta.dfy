/**
 The firmware update over TFTP end to end: the protocol of TftpNetwork feeding StoreBlock, with the
 block size the client asks for, so that one TFTP block is one image packet.
 */
module TftpOta {
  import opened Bytes
  import opened Words
  import opened Flash
  import opened StoreBlock
  import T = Tftp
  import N = TftpNetwork

  /** The server offers the packets as one file, in blocks of the negotiated size. */
  predicate Serves(conf: N.Conf, packets: seq<seq<byte>>) {
    conf.file == Flatten(packets) && conf.offer == N.OackBlksize(PACKET_LEN)
  }

  lemma PacketAt(packets: seq<seq<byte>>, info: ImageInfo, k: nat)
    requires ImagePackets(packets, info) && k < |packets|
    ensures var (lo, hi) := (k * PACKET_LEN, k * PACKET_LEN + |packets[k]|);
      hi <= |Flatten(packets)| && Flatten(packets)[lo..hi] == packets[k]
  {
    FlattenLength(packets, k, PACKET_LEN);
    FlattenAt(packets, k);
  }

  lemma FileLength(conf: N.Conf, packets: seq<seq<byte>>, info: ImageInfo)
    requires ImagePackets(packets, info) && |packets[|packets| - 1]| < PACKET_LEN && Serves(conf, packets)
    ensures |conf.file| == (|packets| - 1) * PACKET_LEN + |packets[|packets| - 1]|
    ensures |conf.file| / PACKET_LEN == |packets| - 1 && N.Count(conf) == |packets|
  {
    var n := |packets| - 1;
    FlattenLength(packets, n, PACKET_LEN);
    FlattenSnoc(packets, n);
    assert packets[..n + 1] == packets;
    DivModUnique(|conf.file|, PACKET_LEN, n, |packets[n]|);
  }

  /** One block is one packet, provided the last packet is shorter than a block. */
  lemma BlockIsPacket(conf: N.Conf, packets: seq<seq<byte>>, info: ImageInfo, k: nat)
    requires ImagePackets(packets, info) && |packets[|packets| - 1]| < PACKET_LEN && Serves(conf, packets)
    requires k < |packets|
    ensures N.Count(conf) == |packets| && N.Block(conf, k + 1) == packets[k]
  {
    FileLength(conf, packets, info);
    PacketAt(packets, info, k);
    var (lo, hi) := (k * PACKET_LEN, k * PACKET_LEN + |packets[k]|);
    N.BlockBounds(|conf.file|, PACKET_LEN, k + 1);
    assert Min((k + 1) * PACKET_LEN, |conf.file|) == hi;
  }

  /** The store after the calls the client made. */
  function Fed(st: Store, flashSize: nat, crc32: Crc, calls: seq<T.Call>): (r: Store)
    requires ValidStore(st) && ChipSize(flashSize)
    requires forall k :: 0 <= k < |calls| ==> PacketSize(calls[k].payload)
    ensures ValidStore(r)
  {
    if calls == [] then st
    else
      var last := calls[|calls| - 1];
      Commit(Fed(st, flashSize, crc32, calls[..|calls| - 1]), flashSize, crc32, last.arg, last.payload)
  }

  lemma {:induction false} FedIsRun(st: Store, flashSize: nat, crc32: Crc, packets: seq<seq<byte>>, calls: seq<T.Call>)
    requires ValidStore(st) && ChipSize(flashSize) && |calls| <= |packets|
    requires forall i :: 0 <= i < |packets| ==> PacketSize(packets[i])
    requires forall k :: 0 <= k < |calls| ==> calls[k] == T.Call(k, packets[k])
    ensures Fed(st, flashSize, crc32, calls) == RunTo(st, flashSize, crc32, packets, |calls|)
  {
    if calls != [] {
      FedIsRun(st, flashSize, crc32, packets, calls[..|calls| - 1]);
    }
  }

  /** In every run, what the client has handed over is an in-order run of store_block over the packets. */
  lemma CallsFollowPackets(conf: N.Conf, packets: seq<seq<byte>>, info: ImageInfo, lastBlock: nat, events: seq<N.Event>)
    requires ImagePackets(packets, info) && |packets[|packets| - 1]| < PACKET_LEN && Serves(conf, packets)
    ensures var c := N.Run(conf, lastBlock, events).client;
      && |c.calls| <= |packets|
      && (forall k :: 0 <= k < |c.calls| ==> c.calls[k] == T.Call(k, packets[k]))
      && (!c.running ==> |c.calls| == |packets|)
  {
    FileLength(conf, packets, info);
    N.TransferIsSafe(conf, lastBlock, events);
    N.PositionsAreRight(conf, lastBlock, events);
    var c := N.Run(conf, lastBlock, events).client;
    assert info.totalSeq < 0x1_0000 by {
      assert Info(packets[0]) == info;
    }
    forall k | 0 <= k < |c.calls|
      ensures c.calls[k] == T.Call(k, packets[k])
    {
      BlockIsPacket(conf, packets, info, k);
      assert c.calls[k].payload == N.Block(conf, k + 1) && c.calls[k].arg == k;
    }
  }

  /**
   The update: over any loss, duplication, timeouts and strangers, when the client reports success the
   flash holds the image at its target, and the boot loader's header announces it exactly when the CRC
   over the transfer agrees.
   */
  lemma UpdateIsSafe(conf: N.Conf, packets: seq<seq<byte>>, info: ImageInfo, lastBlock: nat, events: seq<N.Event>,
                     st: Store, flashSize: nat, crc32: Crc)
    requires ImagePackets(packets, info) && |packets[|packets| - 1]| < PACKET_LEN && Serves(conf, packets)
    requires ValidStore(st) && ChipSize(flashSize) && GoodPlacement(packets, info, flashSize)
    requires !N.Run(conf, lastBlock, events).client.running
    ensures var calls := N.Run(conf, lastBlock, events).client.calls;
      && (forall k :: 0 <= k < |calls| ==> PacketSize(calls[k].payload))
      && Committed(Fed(st, flashSize, crc32, calls), st.cells, crc32, packets, info)
  {
    CallsFollowPackets(conf, packets, info, lastBlock, events);
    FedIsRun(st, flashSize, crc32, packets, N.Run(conf, lastBlock, events).client.calls);
    ImageCommitted(st, flashSize, crc32, packets, info);
  }

  /**
   store_block reads a 24-byte header and copies the rest through a 1024-byte buffer without checking the
   length. A transfer in blocks of 1048 stays within that exactly when the file's last block holds at
   least a header; a file that is a multiple of 1048 long ends with an empty block and does not.
   */
  lemma BlocksAreCommittable(conf: N.Conf)
    requires conf.offer == N.OackBlksize(PACKET_LEN)
    ensures (forall i :: 1 <= i <= N.Count(conf) ==> PacketSize(N.Block(conf, i)))
       <==> |conf.file| % PACKET_LEN >= HEADER_LEN
  {
    var (len, n) := (|conf.file|, N.Count(conf));
    forall i | 1 <= i <= n
      ensures |N.Block(conf, i)| == if i == n then len % PACKET_LEN else PACKET_LEN
    {
      N.BlockBounds(len, PACKET_LEN, i);
    }
    assert 1 <= n <= N.Count(conf) && |N.Block(conf, n)| == len % PACKET_LEN;
  }
}
