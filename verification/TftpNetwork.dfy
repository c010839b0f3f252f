/**
 The client against a stop-and-wait server over two channels that may lose and duplicate datagrams but
 keep their order. Timers on both sides may fire at any time, strangers may send datagrams, and the server may
 send ERROR packets once it has the request.
 */
module TftpNetwork {
  import opened Bytes
  import opened Tftp

  /** How the server answers the options of the request. */
  datatype Offer = NoOptions | OackOnly | OackBlksize(blksize: nat)

  datatype Conf = Conf(file: seq<byte>, offer: Offer, port: nat)

  predicate ValidConf(conf: Conf) {
    conf.offer.OackBlksize? ==> 0 < conf.offer.blksize < SEQUENCE_SIZE
  }

  function BlkSize(conf: Conf): (b: nat)
    requires ValidConf(conf)
    ensures 0 < b < SEQUENCE_SIZE && (conf.offer.OackBlksize? || b == 512)
  {
    if conf.offer.OackBlksize? then conf.offer.blksize else DEFAULT_BLKSIZE
  }

  /** A file is sent as full blocks and one shorter, possibly empty, last block. */
  function BlockCount(file: seq<byte>, b: nat): (n: nat)
    requires 0 < b
  {
    |file| / b + 1
  }

  function BlockAt(file: seq<byte>, b: nat, i: nat): (r: seq<byte>)
    requires 0 < b && 1 <= i <= BlockCount(file, b)
    ensures |r| < b <==> i == BlockCount(file, b)
    ensures |r| <= b
  {
    BlockBounds(|file|, b, i);
    file[(i - 1) * b..Min(i * b, |file|)]
  }

  lemma BlockBounds(len: nat, b: nat, i: nat)
    requires 0 < b && 1 <= i <= len / b + 1
    ensures 0 <= (i - 1) * b <= len && i * b == (i - 1) * b + b
    ensures i <= len / b ==> i * b <= len
    ensures i == len / b + 1 ==> len < i * b
  {
    var q := len / b;
    assert len == q * b + len % b;
    if i <= q {
      assert i * b <= q * b;
    } else {
      assert i == q + 1;
    }
  }

  function Count(conf: Conf): nat
    requires ValidConf(conf)
  {
    BlockCount(conf.file, BlkSize(conf))
  }

  function Block(conf: Conf, i: nat): seq<byte>
    requires ValidConf(conf) && 1 <= i <= Count(conf)
  {
    BlockAt(conf.file, BlkSize(conf), i)
  }

  /** The index of the server's first reply: 0 stands for the option acknowledgement, i > 0 for block i. */
  function First(conf: Conf): nat {
    if conf.offer.NoOptions? then 1 else 0
  }

  /** The datagram with index i; block numbers are 16 bits wide. */
  function Wire(conf: Conf, i: nat): Packet
    requires ValidConf(conf)
  {
    if i > Count(conf) then Ignored  // never sent
    else if i == 0 then Oack(if conf.offer.OackBlksize? then Some(conf.offer.blksize) else None)
    else Data(i % SEQUENCE_SIZE, Block(conf, i))
  }

  /**
   The server repeats the datagram `sent` (-1 before the request) until it is acknowledged. `down` lists
   the indices of the datagrams on their way to the client and `up` the client's messages, oldest first.
   */
  datatype Net = Net(client: Client, sent: int, finished: bool, down: seq<nat>, up: seq<Message>)

  datatype Event =
    | ClientReceives
    | ClientTimeout
    | StrangerSends(packet: Packet, port: nat)
    | ServerFails
    | ServerReceives
    | ServerTimeout
    | LoseDown(at: nat)
    | CopyDown(at: nat)
    | LoseUp(at: nat)
    | CopyUp(at: nat)

  function Initial(lastBlock: nat): Net {
    Net(Start(lastBlock), -1, false, [], [])
  }

  /** What reaches the server: requests on the well-known port, and everything on the transfer's own port. */
  function Arriving(conf: Conf, out: seq<Sent>): seq<Message> {
    if |out| == 1 && (out[0].port == conf.port || (out[0].port == WELL_KNOWN_PORT && out[0].message.Request?))
    then [out[0].message] else []
  }

  function ServerStep(conf: Conf, net: Net, m: Message): Net
    requires ValidConf(conf)
  {
    if net.sent < 0 then
      if m.Request? then net.(sent := First(conf), down := net.down + [First(conf)]) else net
    else if net.finished || !m.Ack? || m.number != net.sent % SEQUENCE_SIZE then net
    else if net.sent == Count(conf) then net.(finished := true)
    else net.(sent := net.sent + 1, down := net.down + [(net.sent + 1) as nat])
  }

  /** A stranger's datagram gets to a running client; before the first reply it is not one a server would send. */
  predicate Hears(conf: Conf, net: Net, packet: Packet, port: nat) {
    net.client.running && port != conf.port && (net.client.state == StateRrq ==> !packet.Oack? && !packet.Data?)
  }

  /** One event; an event that cannot happen changes nothing. */
  function Next(conf: Conf, net: Net, e: Event): Net
    requires ValidConf(conf)
  {
    match e
    case ClientReceives =>
      if !net.client.running || net.down == [] then net
      else
        var (c, out) := Receive(net.client, Wire(conf, net.down[0]), conf.port);
        net.(client := c, down := net.down[1..], up := net.up + Arriving(conf, out))
    case ClientTimeout =>
      if !net.client.running then net
      else
        var (c, out) := Timeout(net.client);
        net.(client := c, up := net.up + Arriving(conf, out))
    case StrangerSends(packet, port) =>
      if !Hears(conf, net, packet, port) then net
      else
        var (c, out) := Receive(net.client, packet, port);
        net.(client := c, up := net.up + Arriving(conf, out))
    case ServerFails =>  // an ERROR packet from the server's own port
      if !net.client.running || net.sent < 0 then net
      else
        var (c, out) := Receive(net.client, Ignored, conf.port);
        net.(client := c, up := net.up + Arriving(conf, out))
    case ServerReceives =>
      if net.up == [] then net else ServerStep(conf, net.(up := net.up[1..]), net.up[0])
    case ServerTimeout =>
      if net.sent < 0 || net.finished then net else net.(down := net.down + [net.sent as nat])
    case LoseDown(at) => if at < |net.down| then net.(down := net.down[..at] + net.down[at + 1..]) else net
    case CopyDown(at) => if at < |net.down| then net.(down := net.down[..at + 1] + net.down[at..]) else net
    case LoseUp(at) => if at < |net.up| then net.(up := net.up[..at] + net.up[at + 1..]) else net
    case CopyUp(at) => if at < |net.up| then net.(up := net.up[..at + 1] + net.up[at..]) else net
  }

  function RunFrom(conf: Conf, net: Net, events: seq<Event>): Net
    requires ValidConf(conf)
  {
    if events == [] then net else Next(conf, RunFrom(conf, net, events[..|events| - 1]), events[|events| - 1])
  }

  /** A whole run; TftpLastBlock may hold anything left over from an earlier transfer. */
  function Run(conf: Conf, lastBlock: nat, events: seq<Event>): Net
    requires ValidConf(conf)
  {
    RunFrom(conf, Initial(lastBlock), events)
  }

  /** How many blocks the client has stored. */
  function Stored(net: Net): nat {
    |net.client.calls|
  }

  /** The client's variables agree with the blocks it has stored. */
  predicate ClientAgrees(conf: Conf, c: Client)
    requires ValidConf(conf)
  {
    var n := |c.calls|;
    && n <= Count(conf) && (c.running <==> n < Count(conf))
    && (forall k :: 0 <= k < n ==> c.calls[k] == Call(StoreArg((k + 1) % SEQUENCE_SIZE), Block(conf, k + 1)))
    && (n == 0 ==> (c.state == StateRrq || c.state == StateOack) && c.block == 0)
    && (n > 0 ==> c.state == StateData && c.block == c.lastBlock == n % SEQUENCE_SIZE)
    && (c.state == StateRrq ==> c.blkSize == DEFAULT_BLKSIZE)
    && (c.state != StateRrq ==> c.blkSize == BlkSize(conf) && c.serverPort == conf.port)
    && (c.state == StateOack ==> !conf.offer.NoOptions?)
  }

  /** The server is at most one datagram ahead, and only after the previous one was stored. */
  predicate ServerAgrees(conf: Conf, net: Net)
    requires ValidConf(conf)
  {
    && -1 <= net.sent <= Count(conf)
    && (net.sent == -1 ==> net.client.state == StateRrq && Stored(net) == 0)
    && (net.sent >= 0 ==> First(conf) <= net.sent && net.sent - 1 <= Stored(net) <= net.sent)
    && (net.sent > First(conf) ==> net.client.state != StateRrq)
    && (net.finished ==> net.sent == Count(conf) == Stored(net))
  }

  /** Going down: the server's current datagram or the one before, in order, none older than the last stored. */
  predicate DownAgrees(conf: Conf, net: Net)
    requires ValidConf(conf)
  {
    && (forall j :: 0 <= j < |net.down| ==>
          First(conf) <= net.down[j] && Stored(net) <= net.down[j] && net.sent - 1 <= net.down[j] <= net.sent)
    && (forall j, k :: 0 <= j < k < |net.down| ==> net.down[j] <= net.down[k])
  }

  /** The message acknowledges datagram i. */
  predicate Acknowledges(m: Message, i: int) {
    m.Ack? && i >= 0 && m.number == i % SEQUENCE_SIZE
  }

  /** Going up: requests, and acknowledgements of the current datagram (once stored) or the one before, in order. */
  predicate UpAgrees(conf: Conf, net: Net)
    requires ValidConf(conf)
  {
    && (forall j :: 0 <= j < |net.up| && !net.up[j].Request? ==>
          && net.client.state != StateRrq
          && (Acknowledges(net.up[j], net.sent) ==> Stored(net) == net.sent)
          && (Acknowledges(net.up[j], net.sent) || Acknowledges(net.up[j], net.sent - 1)))
    && (forall j, k :: 0 <= j < k < |net.up| && Acknowledges(net.up[j], net.sent) && !net.up[k].Request? ==>
          Acknowledges(net.up[k], net.sent))
  }

  predicate Inv(conf: Conf, net: Net)
    requires ValidConf(conf)
  {
    ClientAgrees(conf, net.client) && ServerAgrees(conf, net) && DownAgrees(conf, net) && UpAgrees(conf, net)
  }

  lemma NeighboursDiffer(i: nat)
    requires i > 0
    ensures i % SEQUENCE_SIZE != (i - 1) % SEQUENCE_SIZE
  {
  }

  /** Appending an acknowledgement of the last stored datagram keeps the upward channel in order. */
  lemma AckSent(conf: Conf, net: Net)
    requires ValidConf(conf) && Inv(conf, net) && net.client.state != StateRrq && net.sent >= 0
    ensures Inv(conf, net.(up := net.up + [Ack(Stored(net) % SEQUENCE_SIZE)]))
  {
    if net.sent > 0 {
      NeighboursDiffer(net.sent);
    }
  }

  lemma RequestSent(conf: Conf, net: Net)
    requires ValidConf(conf) && Inv(conf, net)
    ensures Inv(conf, net.(up := net.up + [Request]))
  {
  }

  lemma TimerTicks(conf: Conf, net: Net)
    requires ValidConf(conf) && Inv(conf, net)
    ensures Inv(conf, net.(client := Timeout(net.client).0))
  {
  }

  lemma TimerSends(conf: Conf, net: Net)
    requires ValidConf(conf) && Inv(conf, net)
    ensures var up := Arriving(conf, Timeout(net.client).1);
      || up == []
      || (up == [Request] && net.client.state == StateRrq)
      || (up == [Ack(Stored(net) % SEQUENCE_SIZE)] && net.client.state != StateRrq && net.sent >= 0)
  {
  }

  lemma TimeoutKeeps(conf: Conf, net: Net)
    requires ValidConf(conf) && Inv(conf, net)
    ensures Inv(conf, Next(conf, net, ClientTimeout))
  {
    if !net.client.running {
      return;
    }
    var net' := net.(client := Timeout(net.client).0);
    var up := Arriving(conf, Timeout(net.client).1);
    assert Next(conf, net, ClientTimeout) == net'.(up := net.up + up);
    TimerTicks(conf, net);
    TimerSends(conf, net);
    if up == [] {
      assert net.up + up == net.up;
    } else if up == [Request] {
      RequestSent(conf, net');
    } else {
      AckSent(conf, net');
    }
  }

  /** The net after its client has taken the first datagram from the channel, before the answer is sent. */
  function Taken(conf: Conf, net: Net): Net
    requires ValidConf(conf) && net.down != []
  {
    net.(client := Receive(net.client, Wire(conf, net.down[0]), conf.port).0, down := net.down[1..])
  }

  lemma OackTaken(conf: Conf, net: Net)
    requires ValidConf(conf) && Inv(conf, net) && net.client.running && net.down != [] && net.down[0] == 0
    ensures Inv(conf, Taken(conf, net)) && Taken(conf, net).client.state == StateOack
    ensures Receive(net.client, Wire(conf, 0), conf.port).1 == [Sent(Ack(0), conf.port)]
    ensures Stored(Taken(conf, net)) == 0
  {
  }

  /** The client on the last block it has stored: it only acknowledges it again. */
  lemma BlockRepeated(conf: Conf, c: Client, i: nat)
    requires ValidConf(conf) && ClientAgrees(conf, c) && c.running && i == |c.calls| > 0
    ensures c.state == StateData
    ensures Receive(c, Wire(conf, i), conf.port) == (c.(peer := conf.port), [Sent(Ack(i % SEQUENCE_SIZE), conf.port)])
  {
  }

  lemma RepeatTaken(conf: Conf, net: Net)
    requires ValidConf(conf) && Inv(conf, net) && net.client.running && net.down != []
    requires net.down[0] > 0 && net.down[0] == Stored(net)
    ensures Inv(conf, Taken(conf, net)) && Stored(Taken(conf, net)) == Stored(net) && net.client.state == StateData
    ensures Taken(conf, net).client.state == StateData
    ensures Receive(net.client, Wire(conf, net.down[0]), conf.port).1
         == [Sent(Ack(Stored(net) % SEQUENCE_SIZE), conf.port)]
  {
    BlockRepeated(conf, net.client, net.down[0]);
  }

  /** The client on the next block. */
  lemma BlockAccepted(conf: Conf, c: Client, i: nat)
    requires ValidConf(conf) && ClientAgrees(conf, c) && c.running && i == |c.calls| + 1
    requires c.state == StateRrq ==> conf.offer.NoOptions?
    ensures var (c', out) := Receive(c, Wire(conf, i), conf.port);
      && ClientAgrees(conf, c') && |c'.calls| == i && c'.state == StateData
      && out == [Sent(Ack(i % SEQUENCE_SIZE), conf.port)]
  {
    NeighboursDiffer(i);
    var c' := Receive(c, Wire(conf, i), conf.port).0;
    assert c'.calls == c.calls + [Call(StoreArg(i % SEQUENCE_SIZE), Block(conf, i))];
  }

  /** A new block: the client stores it, and every datagram behind it in the channel is the same one. */
  lemma BlockTaken(conf: Conf, net: Net)
    requires ValidConf(conf) && Inv(conf, net) && net.client.running && net.down != []
    requires net.down[0] > Stored(net)
    ensures Inv(conf, Taken(conf, net)) && Stored(Taken(conf, net)) == Stored(net) + 1
    ensures Taken(conf, net).client.state == StateData
    ensures Receive(net.client, Wire(conf, net.down[0]), conf.port).1
         == [Sent(Ack((Stored(net) + 1) % SEQUENCE_SIZE), conf.port)]
  {
    assert net.down[0] == net.sent == Stored(net) + 1;
    BlockAccepted(conf, net.client, net.sent);
  }

  lemma ReceiveKeeps(conf: Conf, net: Net)
    requires ValidConf(conf) && Inv(conf, net)
    ensures Inv(conf, Next(conf, net, ClientReceives))
  {
    if net.client.running && net.down != [] {
      if net.down[0] == 0 {
        OackTaken(conf, net);
      } else if net.down[0] == Stored(net) {
        RepeatTaken(conf, net);
      } else {
        BlockTaken(conf, net);
      }
      AckSent(conf, Taken(conf, net));
    }
  }

  lemma StrangerKeeps(conf: Conf, net: Net, packet: Packet, port: nat)
    requires ValidConf(conf) && Inv(conf, net)
    ensures Inv(conf, Next(conf, net, StrangerSends(packet, port)))
  {
    if net.client.running && port != conf.port {
      assert net.(up := net.up + []) == net;
    }
  }

  /** The server's ERROR packet ends nothing: the client prints it and goes on. */
  lemma ErrorKeeps(conf: Conf, net: Net)
    requires ValidConf(conf) && Inv(conf, net)
    ensures Inv(conf, Next(conf, net, ServerFails))
  {
    assert net.(up := net.up + []) == net;
  }

  lemma HeadDropped(conf: Conf, net: Net)
    requires ValidConf(conf) && Inv(conf, net) && net.up != []
    ensures Inv(conf, net.(up := net.up[1..]))
  {
  }

  /** The current datagram is acknowledged: all older traffic has left both channels. */
  lemma ServerAdvances(conf: Conf, net: Net)
    requires ValidConf(conf) && Inv(conf, net) && 0 <= net.sent < Count(conf) && Stored(net) == net.sent
    requires net.client.state != StateRrq
    requires forall j :: 0 <= j < |net.up| && !net.up[j].Request? ==> Acknowledges(net.up[j], net.sent)
    ensures Inv(conf, net.(sent := net.sent + 1, down := net.down + [(net.sent + 1) as nat]))
  {
    NeighboursDiffer(net.sent + 1);
  }

  lemma ServerKeeps(conf: Conf, net: Net)
    requires ValidConf(conf) && Inv(conf, net)
    ensures Inv(conf, Next(conf, net, ServerReceives))
  {
    if net.up != [] {
      var rest := net.(up := net.up[1..]);
      HeadDropped(conf, net);
      if 0 <= net.sent < Count(conf) && Acknowledges(net.up[0], net.sent) {
        ServerAdvances(conf, rest);
      }
    }
  }

  lemma ServerTimeoutKeeps(conf: Conf, net: Net)
    requires ValidConf(conf) && Inv(conf, net)
    ensures Inv(conf, Next(conf, net, ServerTimeout))
  {
  }

  lemma DownReshaped(conf: Conf, net: Net, down: seq<nat>)
    requires ValidConf(conf) && Inv(conf, net)
    requires forall j :: 0 <= j < |down| ==> down[j] in net.down
    requires forall j, k :: 0 <= j < k < |down| ==> down[j] <= down[k]
    ensures Inv(conf, net.(down := down))
  {
  }

  lemma UpReshaped(conf: Conf, net: Net, up: seq<Message>)
    requires ValidConf(conf) && Inv(conf, net)
    requires forall j :: 0 <= j < |up| ==> up[j] in net.up
    requires forall j, k :: 0 <= j < k < |up| && Acknowledges(up[j], net.sent) && !up[k].Request? ==>
          Acknowledges(up[k], net.sent)
    ensures Inv(conf, net.(up := up))
  {
  }

  lemma LoseDownKeeps(conf: Conf, net: Net, at: nat)
    requires ValidConf(conf) && Inv(conf, net)
    ensures Inv(conf, Next(conf, net, LoseDown(at)))
  {
    if at < |net.down| {
      var down := net.down[..at] + net.down[at + 1..];
      assert forall j :: 0 <= j < |down| ==> down[j] == net.down[if j < at then j else j + 1];
      DownReshaped(conf, net, down);
    }
  }

  lemma CopyDownKeeps(conf: Conf, net: Net, at: nat)
    requires ValidConf(conf) && Inv(conf, net)
    ensures Inv(conf, Next(conf, net, CopyDown(at)))
  {
    if at < |net.down| {
      var down := net.down[..at + 1] + net.down[at..];
      assert forall j :: 0 <= j < |down| ==> down[j] == net.down[if j <= at then j else j - 1];
      DownReshaped(conf, net, down);
    }
  }

  lemma LoseUpKeeps(conf: Conf, net: Net, at: nat)
    requires ValidConf(conf) && Inv(conf, net)
    ensures Inv(conf, Next(conf, net, LoseUp(at)))
  {
    if at < |net.up| {
      var up := net.up[..at] + net.up[at + 1..];
      assert forall j :: 0 <= j < |up| ==> up[j] == net.up[if j < at then j else j + 1];
      UpReshaped(conf, net, up);
    }
  }

  lemma CopyUpKeeps(conf: Conf, net: Net, at: nat)
    requires ValidConf(conf) && Inv(conf, net)
    ensures Inv(conf, Next(conf, net, CopyUp(at)))
  {
    if at < |net.up| {
      var up := net.up[..at + 1] + net.up[at..];
      assert forall j :: 0 <= j < |up| ==> up[j] == net.up[if j <= at then j else j - 1];
      forall j, k | 0 <= j < k < |up| && Acknowledges(up[j], net.sent) && !up[k].Request?
        ensures Acknowledges(up[k], net.sent)
      {
        if j == at && k == at + 1 {
          assert up[j] == up[k] == net.up[at];
        } else {
          var (j', k') := (if j <= at then j else j - 1, if k <= at then k else k - 1);
          assert j' < k' && up[j] == net.up[j'] && up[k] == net.up[k'];
        }
      }
      UpReshaped(conf, net, up);
    }
  }

  lemma StepKeeps(conf: Conf, net: Net, e: Event)
    requires ValidConf(conf) && Inv(conf, net)
    ensures Inv(conf, Next(conf, net, e))
  {
    match e
    case ClientReceives => ReceiveKeeps(conf, net);
    case ClientTimeout => TimeoutKeeps(conf, net);
    case StrangerSends(packet, port) => StrangerKeeps(conf, net, packet, port);
    case ServerFails => ErrorKeeps(conf, net);
    case ServerReceives => ServerKeeps(conf, net);
    case ServerTimeout => ServerTimeoutKeeps(conf, net);
    case LoseDown(at) => LoseDownKeeps(conf, net, at);
    case CopyDown(at) => CopyDownKeeps(conf, net, at);
    case LoseUp(at) => LoseUpKeeps(conf, net, at);
    case CopyUp(at) => CopyUpKeeps(conf, net, at);
  }

  lemma {:induction false} RunKeeps(conf: Conf, net: Net, events: seq<Event>)
    requires ValidConf(conf) && Inv(conf, net)
    ensures Inv(conf, RunFrom(conf, net, events))
  {
    if events != [] {
      RunKeeps(conf, net, events[..|events| - 1]);
      StepKeeps(conf, RunFrom(conf, net, events[..|events| - 1]), events[|events| - 1]);
    }
  }

  // ----- Safety

  /** The payloads handed to store_block, one after the other. */
  function Joined(calls: seq<Call>): seq<byte> {
    if calls == [] then [] else Joined(calls[..|calls| - 1]) + calls[|calls| - 1].payload
  }

  /** The file up to the end of block n. */
  function FirstBlocks(conf: Conf, n: nat): seq<byte>
    requires ValidConf(conf)
  {
    conf.file[..Min(n * BlkSize(conf), |conf.file|)]
  }

  lemma {:induction false} JoinedBlocks(conf: Conf, calls: seq<Call>)
    requires ValidConf(conf) && |calls| <= Count(conf)
    requires forall k :: 0 <= k < |calls| ==> calls[k].payload == Block(conf, k + 1)
    ensures Joined(calls) == FirstBlocks(conf, |calls|)
  {
    var n := |calls|;
    if n > 0 {
      JoinedBlocks(conf, calls[..n - 1]);
      BlockBounds(|conf.file|, BlkSize(conf), n);
    }
  }

  /**
   In every run the client hands store_block the file's blocks in order, each exactly once, and it
   reports success only when the whole file has been stored.
   */
  lemma TransferIsSafe(conf: Conf, lastBlock: nat, events: seq<Event>)
    requires ValidConf(conf)
    ensures var c := Run(conf, lastBlock, events).client;
      && |c.calls| <= Count(conf)
      && (forall k :: 0 <= k < |c.calls| ==> c.calls[k].payload == Block(conf, k + 1))
      && Joined(c.calls) == FirstBlocks(conf, |c.calls|)
      && (!c.running ==> |c.calls| == Count(conf) && Joined(c.calls) == conf.file)
  {
    RunKeeps(conf, Initial(lastBlock), events);
    var c := Run(conf, lastBlock, events).client;
    JoinedBlocks(conf, c.calls);
    if !c.running {
      BlockBounds(|conf.file|, BlkSize(conf), Count(conf));
    }
  }

  lemma ArgOf(k: nat)
    ensures StoreArg((k + 1) % SEQUENCE_SIZE) == if (k + 1) % SEQUENCE_SIZE == 0 then U32 - 1 else k % SEQUENCE_SIZE
  {
    var m := (k + 1) % SEQUENCE_SIZE;
    assert m > 0 ==> m - 1 == k % SEQUENCE_SIZE;
    StoreArgIs(m);
  }

  /**
   The 16-bit block number is all store_block gets to see: it is the block's position in the file exactly
   as long as no more than 65535 blocks have been stored, and from block 65536 on (counting from 0) store_block
   is told again that it is at the first block.
   */
  lemma PositionsAreRight(conf: Conf, lastBlock: nat, events: seq<Event>)
    requires ValidConf(conf)
    ensures var calls := Run(conf, lastBlock, events).client.calls;
      && ((forall k :: 0 <= k < |calls| ==> calls[k].arg == k) <==> |calls| < 0x1_0000)
      && ((exists k :: 0 < k < |calls| && calls[k].arg == 0) <==> |calls| > 0x1_0000)
  {
    RunKeeps(conf, Initial(lastBlock), events);
    ArgsOf(Run(conf, lastBlock, events).client.calls);
  }

  lemma ArgsOf(calls: seq<Call>)
    requires forall k :: 0 <= k < |calls| ==> calls[k].arg == StoreArg((k + 1) % SEQUENCE_SIZE)
    ensures (forall k :: 0 <= k < |calls| ==> calls[k].arg == k) <==> |calls| < SEQUENCE_SIZE
    ensures (exists k :: 0 < k < |calls| && calls[k].arg == 0) <==> |calls| > SEQUENCE_SIZE
  {
    forall k | 0 <= k < |calls|
      ensures calls[k].arg == if (k + 1) % SEQUENCE_SIZE == 0 then U32 - 1 else k % SEQUENCE_SIZE
      ensures k < SEQUENCE_SIZE - 1 ==> calls[k].arg == k
    {
      ArgOf(k);
    }
    if |calls| >= SEQUENCE_SIZE {
      assert calls[SEQUENCE_SIZE - 1].arg == U32 - 1;
    }
    if |calls| > SEQUENCE_SIZE {
      assert calls[SEQUENCE_SIZE].arg == 0;
    }
  }

  /** The source of the datagram that recvfrom hands out at an event, or what it was before if there is none. */
  function SourceAt(conf: Conf, net: Net, e: Event, before: nat): nat {
    match e
    case ClientReceives => if net.client.running && net.down != [] then conf.port else before
    case StrangerSends(packet, port) => if Hears(conf, net, packet, port) then port else before
    case ServerFails => if net.client.running && net.sent >= 0 then conf.port else before
    case _ => before
  }

  /** Where the last datagram that recvfrom handed out came from; before any, the port TftpStart talks to. */
  function LastSource(conf: Conf, net: Net, events: seq<Event>): nat
    requires ValidConf(conf)
  {
    if events == [] then net.client.peer
    else
      var before := events[..|events| - 1];
      SourceAt(conf, RunFrom(conf, net, before), events[|events| - 1], LastSource(conf, net, before))
  }

  lemma PeerIsSource(conf: Conf, net: Net, e: Event)
    requires ValidConf(conf)
    ensures Next(conf, net, e).client.peer == SourceAt(conf, net, e, net.client.peer)
  {
  }

  lemma {:induction false} PeerIsLastSource(conf: Conf, net: Net, events: seq<Event>)
    requires ValidConf(conf)
    ensures RunFrom(conf, net, events).client.peer == LastSource(conf, net, events)
  {
    if events != [] {
      PeerIsLastSource(conf, net, events[..|events| - 1]);
      PeerIsSource(conf, RunFrom(conf, net, events[..|events| - 1]), events[|events| - 1]);
    }
  }

  /**
   In every run, once a reply was accepted, a datagram from any port but the server's changes nothing but where
   the client sends to next: no answer, no stored block, no other variable, nothing in the channels.
   */
  lemma {:induction false} StrangersAreIgnored(conf: Conf, lastBlock: nat, events: seq<Event>, packet: Packet,
                                               port: nat)
    requires ValidConf(conf) && port != conf.port
    ensures var net := Run(conf, lastBlock, events);
      net.client.running && net.client.state != StateRrq ==>
        Run(conf, lastBlock, events + [StrangerSends(packet, port)]) == net.(client := net.client.(peer := port))
  {
    var net := Run(conf, lastBlock, events);
    RunKeeps(conf, Initial(lastBlock), events);
    RunAppends(conf, Initial(lastBlock), events, [StrangerSends(packet, port)]);
    RunOne(conf, net, StrangerSends(packet, port));
    if net.client.running && net.client.state != StateRrq {
      StrangerIgnored(conf, net, packet, port);
    }
  }

  lemma StrangerIgnored(conf: Conf, net: Net, packet: Packet, port: nat)
    requires ValidConf(conf) && ClientAgrees(conf, net.client) && port != conf.port
    requires net.client.running && net.client.state != StateRrq
    ensures Next(conf, net, StrangerSends(packet, port)) == net.(client := net.client.(peer := port))
  {
    assert net.up + [] == net.up;
  }

  /**
   In every run, once a reply was accepted and while retransmissions are left, the next one reaches the server
   exactly when the last datagram the client received came from the server's port: recvfrom redirects it.
   */
  lemma {:induction false} RetransmissionTarget(conf: Conf, lastBlock: nat, events: seq<Event>)
    requires ValidConf(conf)
    ensures var c := Run(conf, lastBlock, events).client;
      c.running && c.state != StateRrq && c.timeoutCount < TIMEOUT_COUNT ==>
        (Arriving(conf, Timeout(c).1) != [] <==> LastSource(conf, Initial(lastBlock), events) == conf.port)
  {
    PeerIsLastSource(conf, Initial(lastBlock), events);
  }

  /** How many retransmissions the client's timer has sent. */
  function Retries(conf: Conf, net: Net, events: seq<Event>): nat
    requires ValidConf(conf)
  {
    if events == [] then 0
    else
      var before := RunFrom(conf, net, events[..|events| - 1]);
      Retries(conf, net, events[..|events| - 1])
      + if events[|events| - 1].ClientTimeout? && before.client.running then |Timeout(before.client).1| else 0
  }

  lemma TimerCounts(conf: Conf, net: Net, e: Event)
    requires ValidConf(conf)
    ensures Next(conf, net, e).client.timeoutCount
         == net.client.timeoutCount + if e.ClientTimeout? && net.client.running then 1 else 0
    ensures |Timeout(net.client).1| == if net.client.timeoutCount < TIMEOUT_COUNT then 1 else 0
  {
  }

  /**
   The retry counter is never reset, so a whole transfer gets ten sends of the timer, however much progress it
   makes. TftpStart sends nothing, so the first request is one of them.
   */
  lemma {:induction false} RetriesAreBounded(conf: Conf, lastBlock: nat, events: seq<Event>)
    requires ValidConf(conf)
    ensures Retries(conf, Initial(lastBlock), events)
         == Min(Run(conf, lastBlock, events).client.timeoutCount, 10)
  {
    if events != [] {
      RetriesAreBounded(conf, lastBlock, events[..|events| - 1]);
      TimerCounts(conf, Run(conf, lastBlock, events[..|events| - 1]), events[|events| - 1]);
    }
  }

  // ----- Progress

  lemma {:induction false} RunAppends(conf: Conf, net: Net, a: seq<Event>, b: seq<Event>)
    requires ValidConf(conf)
    ensures RunFrom(conf, net, a + b) == RunFrom(conf, RunFrom(conf, net, a), b)
  {
    if b == [] {
      assert a + b == a;
    } else {
      RunAppends(conf, net, a, b[..|b| - 1]);
      assert (a + b)[..|a + b| - 1] == a + b[..|b| - 1];
    }
  }

  lemma RunOne(conf: Conf, net: Net, e: Event)
    requires ValidConf(conf)
    ensures RunFrom(conf, net, [e]) == Next(conf, net, e)
  {
    assert [e][..0] == [];
    assert RunFrom(conf, net, [e][..0]) == net;
  }

  /** Both channels can lose everything they hold. */
  lemma {:induction false} Drain(conf: Conf, net: Net) returns (events: seq<Event>)
    requires ValidConf(conf)
    ensures RunFrom(conf, net, events) == net.(down := [], up := [])
    decreases |net.down| + |net.up|
  {
    if net.down == [] && net.up == [] {
      events := [];
    } else {
      var e := if net.down != [] then LoseDown(0) else LoseUp(0);
      var rest := Drain(conf, Next(conf, net, e));
      events := [e] + rest;
      RunOne(conf, net, e);
      RunAppends(conf, net, [e], rest);
    }
  }

  /** A server that is up with the client repeats its datagram and takes the acknowledgement. */
  lemma ServerCatchesUp(conf: Conf, net: Net)
    requires ValidConf(conf) && Inv(conf, net) && net.client.running
    requires net.down == [] && net.up == [] && 0 <= net.sent == Stored(net)
    ensures var net' := RunFrom(conf, net, [ServerTimeout, ClientReceives, ServerReceives]);
      Stored(net') == Stored(net) && net'.client.running && net'.sent == net.sent + 1
  {
    var a := Next(conf, net, ServerTimeout);
    ServerTimeoutKeeps(conf, net);
    assert a.down == [net.sent as nat];
    if net.sent == 0 {
      OackTaken(conf, a);
    } else {
      RepeatTaken(conf, a);
    }
    var b := Next(conf, a, ClientReceives);
    assert b.up == [Ack(net.sent % SEQUENCE_SIZE)];
    ThreeSteps(conf, net, ServerTimeout, ClientReceives, ServerReceives);
  }

  /** A server that is ahead repeats its block, which the client stores. */
  lemma ClientCatchesUp(conf: Conf, net: Net)
    requires ValidConf(conf) && Inv(conf, net) && net.client.running
    requires net.down == [] && net.up == [] && net.sent == Stored(net) + 1
    ensures Stored(RunFrom(conf, net, [ServerTimeout, ClientReceives])) == Stored(net) + 1
  {
    var a := Next(conf, net, ServerTimeout);
    ServerTimeoutKeeps(conf, net);
    assert a.down == [net.sent as nat];
    BlockTaken(conf, a);
    RunOne(conf, net, ServerTimeout);
    RunOne(conf, a, ClientReceives);
    RunAppends(conf, net, [ServerTimeout], [ClientReceives]);
    assert [ServerTimeout] + [ClientReceives] == [ServerTimeout, ClientReceives];
  }

  lemma ThreeSteps(conf: Conf, net: Net, e: Event, f: Event, g: Event)
    requires ValidConf(conf)
    ensures RunFrom(conf, net, [e, f, g]) == Next(conf, Next(conf, Next(conf, net, e), f), g)
  {
    RunOne(conf, net, e);
    RunOne(conf, Next(conf, net, e), f);
    RunOne(conf, Next(conf, Next(conf, net, e), f), g);
    RunAppends(conf, net, [e], [f]);
    RunAppends(conf, net, [e] + [f], [g]);
    assert [e] + [f] + [g] == [e, f, g];
  }

  /**
   No reachable state is a dead end once the server has the request: whatever was lost or duplicated, and
   even with the client's retransmissions used up, some continuation completes the transfer.
   */
  lemma {:induction false} CanFinish(conf: Conf, net: Net) returns (events: seq<Event>)
    requires ValidConf(conf) && Inv(conf, net) && net.sent >= 0
    ensures !RunFrom(conf, net, events).client.running
    decreases Count(conf) - Stored(net), if net.sent == Stored(net) then 1 else 0
  {
    if !net.client.running {
      return [];
    }
    var drain := Drain(conf, net);
    var clean := net.(down := [], up := []);
    RunKeeps(conf, net, drain);
    var round := [ServerTimeout, ClientReceives];
    if net.sent == Stored(net) {
      ServerCatchesUp(conf, clean);
      round := [ServerTimeout, ClientReceives, ServerReceives];
    } else {
      ClientCatchesUp(conf, clean);
    }
    var next := RunFrom(conf, clean, round);
    RunKeeps(conf, clean, round);
    var rest := CanFinish(conf, next);
    events := drain + round + rest;
    RunAppends(conf, net, drain, round);
    RunAppends(conf, net, drain + round, rest);
  }

  /**
   The transfer has started, or the request is on its way, or the timer can still send it: to the well-known
   port, unless a stranger has redirected the client and nothing can direct it back.
   */
  predicate Alive(conf: Conf, net: Net) {
    || net.sent >= 0
    || Request in net.up
    || (net.client.timeoutCount < TIMEOUT_COUNT && (net.client.peer == WELL_KNOWN_PORT || conf.port != WELL_KNOWN_PORT))
  }

  lemma NoneBelow(s: seq<nat>, top: int)
    requires top < 0 && forall j :: 0 <= j < |s| ==> s[j] <= top
    ensures s == []
  {
    var x := (s + [0])[0];
    assert x in s ==> x <= top;
  }

  /** Nothing revives a transfer that has not started and cannot send its request any more. */
  lemma DeadStep(conf: Conf, net: Net, e: Event)
    requires ValidConf(conf) && Inv(conf, net) && net.client.running && !Alive(conf, net)
    ensures var net' := Next(conf, net, e); net'.client.running && !Alive(conf, net')
  {
    NoneBelow(net.down, net.sent);
    var up := Next(conf, net, e).up;
    assert forall m :: m in up ==> m in net.up;
  }

  lemma {:induction false} DeadStays(conf: Conf, net: Net, events: seq<Event>)
    requires ValidConf(conf) && Inv(conf, net) && net.client.running && !Alive(conf, net)
    ensures var net' := RunFrom(conf, net, events); net'.client.running && !Alive(conf, net')
  {
    if events != [] {
      DeadStays(conf, net, events[..|events| - 1]);
      RunKeeps(conf, net, events[..|events| - 1]);
      DeadStep(conf, RunFrom(conf, net, events[..|events| - 1]), events[|events| - 1]);
    }
  }

  /** A request on its way reaches the server. */
  lemma {:induction false} Deliver(conf: Conf, net: Net) returns (events: seq<Event>)
    requires ValidConf(conf) && net.sent < 0 && Request in net.up
    ensures RunFrom(conf, net, events).sent >= 0
    decreases |net.up|
  {
    events := [ServerReceives];
    RunOne(conf, net, ServerReceives);
    if net.up[0] != Request {
      assert net.up == [net.up[0]] + net.up[1..];
      var rest := Deliver(conf, Next(conf, net, ServerReceives));
      RunAppends(conf, net, events, rest);
      events := events + rest;
    }
  }

  /** The timer sends a request if it can, once the client is directed to the well-known port. */
  lemma Revive(conf: Conf, net: Net) returns (events: seq<Event>)
    requires ValidConf(conf) && Inv(conf, net) && net.client.running && Alive(conf, net) && net.sent < 0
    ensures RunFrom(conf, net, events).sent >= 0
  {
    if Request in net.up {
      events := Deliver(conf, net);
    } else {
      var redirect := if net.client.peer == WELL_KNOWN_PORT then [] else [StrangerSends(Short, WELL_KNOWN_PORT)];
      var directed := RunFrom(conf, net, redirect);
      if redirect != [] {
        RunOne(conf, net, StrangerSends(Short, WELL_KNOWN_PORT));
      }
      var asked := Next(conf, directed, ClientTimeout);
      RunOne(conf, directed, ClientTimeout);
      assert asked.up == directed.up + [Request];
      var rest := Deliver(conf, asked);
      RunAppends(conf, directed, [ClientTimeout], rest);
      RunAppends(conf, net, redirect, [ClientTimeout] + rest);
      events := redirect + ([ClientTimeout] + rest);
    }
  }

  /** After any run, some continuation completes the transfer exactly when it is alive. */
  lemma CompletionIsPossible(conf: Conf, lastBlock: nat, events: seq<Event>)
    requires ValidConf(conf) && Run(conf, lastBlock, events).client.running
    ensures (exists more: seq<Event> :: !Run(conf, lastBlock, events + more).client.running)
       <==> Alive(conf, Run(conf, lastBlock, events))
  {
    var net := Run(conf, lastBlock, events);
    RunKeeps(conf, Initial(lastBlock), events);
    if Alive(conf, net) {
      var more := FinishFrom(conf, net);
      RunAppends(conf, Initial(lastBlock), events, more);
      assert !Run(conf, lastBlock, events + more).client.running;
    } else {
      forall more: seq<Event>
        ensures Run(conf, lastBlock, events + more).client.running
      {
        DeadStays(conf, net, more);
        RunAppends(conf, Initial(lastBlock), events, more);
      }
    }
  }

  lemma FinishFrom(conf: Conf, net: Net) returns (events: seq<Event>)
    requires ValidConf(conf) && Inv(conf, net) && net.client.running && Alive(conf, net)
    ensures !RunFrom(conf, net, events).client.running
  {
    var start := [];
    if net.sent < 0 {
      start := Revive(conf, net);
    }
    RunKeeps(conf, net, start);
    var rest := CanFinish(conf, RunFrom(conf, net, start));
    RunAppends(conf, net, start, rest);
    events := start + rest;
  }

  /** In particular a transfer can complete from its very start. */
  lemma CanComplete(conf: Conf, lastBlock: nat) returns (events: seq<Event>)
    requires ValidConf(conf)
    ensures !Run(conf, lastBlock, events).client.running
  {
    RunKeeps(conf, Initial(lastBlock), []);
    events := FinishFrom(conf, Initial(lastBlock));
  }
}
