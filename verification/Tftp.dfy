/**
 The TFTP client (RFC 1350 with the option acknowledgement of RFC 2347 and the block size option of
 RFC 2348): TftpStart, TftpHandler, TftpSend and TftpTimeout as a state machine over received packets.
 */
module Tftp {
  import opened Bytes

  const WELL_KNOWN_PORT: nat := 69
  const TIMEOUT_COUNT: nat := 10
  const DEFAULT_BLKSIZE: nat := 512
  const SEQUENCE_SIZE: nat := 0x1_0000

  /** A received datagram, as far as the handler looks into it. `Short` and `ShortData` lack a field. */
  datatype Packet =
    | Short
    | Ignored           // RRQ, WRQ, ACK, ERROR and unknown opcodes
    | Oack(blksize: Option<nat>)
    | ShortData
    | Data(number: nat, payload: seq<byte>)

  datatype Message = Request | Ack(number: nat) | Failure(code: nat)

  datatype State = StateRrq | StateOack | StateData | StateTooLarge | StateBadMagic

  /** One call store_block(arg, payload, |payload|). */
  datatype Call = Call(arg: nat, payload: seq<byte>)

  /**
   The client's variables. `peer` is the port in server_addr, which recvfrom overwrites with every
   datagram's source; `calls` records what was handed to store_block.
   */
  datatype Client = Client(state: State, serverPort: nat, peer: nat, timeoutCount: nat, block: nat,
                           lastBlock: nat, blkSize: nat, running: bool, calls: seq<Call>)

  /** A message and the port it goes to. */
  datatype Sent = Sent(message: Message, port: nat)

  /** TftpBlock is 64 bits wide and store_block takes 32 of TftpBlock - 1. */
  function StoreArg(block: nat): nat {
    (block + 0x1_0000_0000_0000_0000 - 1) % U32
  }

  function Start(lastBlock: nat): Client {
    Client(StateRrq, WELL_KNOWN_PORT, WELL_KNOWN_PORT, 0, 0, lastBlock, DEFAULT_BLKSIZE, true, [])
  }

  function SendFrom(c: Client): Sent {
    Sent(match c.state
         case StateRrq => Request
         case StateOack => Ack(c.block % SEQUENCE_SIZE)
         case StateData => Ack(c.block % SEQUENCE_SIZE)
         case StateTooLarge => Failure(3)
         case StateBadMagic => Failure(2),
         c.peer)
  }

  /** recvfrom followed by TftpHandler: the new client and what it sent. */
  function Receive(c0: Client, p: Packet, port: nat): (Client, seq<Sent>) {
    var c := c0.(peer := port);
    if c.state != StateRrq && port != c.serverPort then (c, [])
    else match p
      case Short => (c, [])
      case Ignored => (c, [])
      case ShortData => (c, [])
      case Oack(blksize) =>
        var c' := c.(state := StateOack, serverPort := port,
                     blkSize := if blksize.Some? then blksize.value % SEQUENCE_SIZE else c.blkSize);
        (c', [SendFrom(c')])
      case Data(number, payload) =>
        var first := c.state == StateRrq || c.state == StateOack;
        var c' := if first
          then c.(block := number % SEQUENCE_SIZE, state := StateData, serverPort := port, lastBlock := 0)
          else c.(block := number % SEQUENCE_SIZE);
        if first && c'.block != 1 then (c', [])
        else if c'.block == c'.lastBlock then (c', [SendFrom(c')])
        else
          var c'' := c'.(lastBlock := c'.block, calls := c'.calls + [Call(StoreArg(c'.block), payload)],
                         running := c'.running && |payload| >= c'.blkSize);
          (c'', [SendFrom(c'')])
  }

  /**
   What the client must make of a datagram, in every state. One from another port than the server's, once there is
   one, and one that is neither an OACK nor DATA, such as an ERROR, only redirects the next send. An OACK sets port
   and block size and is acknowledged.
   */
  ghost predicate Handled(c: Client, p: Packet, port: nat, after: Client, out: seq<Sent>) {
    if (c.state != StateRrq && port != c.serverPort) || !(p.Oack? || p.Data?) then
      after == c.(peer := port) && out == []
    else if p.Data? then
      TakesData(c, p.number % 0x1_0000, p.payload, port, after, out)
    else
      && after == c.(state := StateOack, serverPort := port, peer := port, blkSize := after.blkSize)
      && after.blkSize == (if p.blksize.Some? then p.blksize.value % 0x1_0000 else c.blkSize)
      && out == [Sent(Ack(c.block % 0x1_0000), port)]
  }

  /**
   DATA number n from the server. A first one that is not block 1 is neither stored nor answered. The last block
   again is answered and not stored; any other one is stored and answered, and ends the transfer if it is short.
   */
  ghost predicate TakesData(c: Client, n: nat, payload: seq<byte>, port: nat, after: Client, out: seq<Sent>) {
    var first := c.state == StateRrq || c.state == StateOack;
    && after.block == n && after.peer == port && after.timeoutCount == c.timeoutCount && after.blkSize == c.blkSize
    && after.state == (if first then StateData else c.state)
    && after.serverPort == (if first then port else c.serverPort)
    && (after.state == StateData && out != [] ==> out == [Sent(Ack(n), port)])
    && if first && n != 1 then
         after.lastBlock == 0 && after.calls == c.calls && after.running == c.running && out == []
       else if !first && n == c.lastBlock then
         after.lastBlock == n && after.calls == c.calls && after.running == c.running && |out| == 1
       else
         && after.lastBlock == n && after.calls == c.calls + [Call(if n == 0 then 0xFFFF_FFFF else n - 1, payload)]
         && after.running == (c.running && |payload| >= c.blkSize) && |out| == 1
  }

  /** Any block number but 1 gets in after all when it is sent twice to a client that waits for block 1. */
  lemma WrongFirstBlock(c: Client, number: nat, payload: seq<byte>, port: nat)
    requires c.state == StateRrq || (c.state == StateOack && port == c.serverPort)
    ensures var once := Receive(c, Data(number, payload), port).0;
      var twice := Receive(once, Data(number, payload), port).0;
      && (once.calls != c.calls <==> number % 0x1_0000 == 1)
      && (twice.calls != c.calls <==> number % 0x1_0000 != 0)
  {
    var once := Receive(c, Data(number, payload), port).0;
    ReceiveMeets(c, Data(number, payload), port);
    ReceiveMeets(once, Data(number, payload), port);
  }

  lemma ReceiveMeets(c: Client, p: Packet, port: nat)
    ensures var (after, out) := Receive(c, p, port); Handled(c, p, port, after, out)
  {
    if p.Data? {
      StoreArgIs(p.number % SEQUENCE_SIZE);
    }
  }

  lemma StoreArgIs(n: nat)
    requires n < SEQUENCE_SIZE
    ensures StoreArg(n) == if n == 0 then 0xFFFF_FFFF else n - 1
  {
    assert 0x1_0000_0000_0000_0000 == U32 * U32;
    assert StoreArg(n) == (n - 1 + U32 * U32) % U32;
    MultipleVanishes(n - 1);
  }

  lemma MultipleVanishes(x: int)
    requires -1 <= x < U32
    ensures (x + U32 * U32) % U32 == if x == -1 then U32 - 1 else x
  {
  }

  /** The retransmission timer. */
  function Timeout(c: Client): (Client, seq<Sent>) {
    var c' := c.(timeoutCount := c.timeoutCount + 1);
    (c', if c'.timeoutCount > TIMEOUT_COUNT then [] else [SendFrom(c')])
  }

  class TftpClient {
    var state: State
    var serverPort: nat
    var peer: nat
    var timeoutCount: nat
    var block: nat
    var lastBlock: nat
    var blkSize: nat
    var running: bool
    var calls: seq<Call>
    var sent: seq<Sent>

    ghost function View(): Client
      reads this
    {
      Client(state, serverPort, peer, timeoutCount, block, lastBlock, blkSize, running, calls)
    }

    constructor ()
      ensures View() == Start(0) && sent == []
    {
      state, serverPort, peer := StateRrq, WELL_KNOWN_PORT, WELL_KNOWN_PORT;
      timeoutCount, block, lastBlock, blkSize := 0, 0, 0, DEFAULT_BLKSIZE;
      running, calls, sent := true, [], [];
    }

    method TftpSend()
      modifies this`sent
      ensures sent == old(sent) + [SendFrom(View())]
      ensures state == StateRrq ==> sent == old(sent) + [Sent(Request, peer)]
      ensures state == StateOack || state == StateData ==> sent == old(sent) + [Sent(Ack(block % 0x1_0000), peer)]
      ensures state == StateTooLarge ==> sent == old(sent) + [Sent(Failure(3), peer)]
      ensures state == StateBadMagic ==> sent == old(sent) + [Sent(Failure(2), peer)]
    {
      match state {
        case StateRrq => sent := sent + [Sent(Request, peer)];
        case StateOack => sent := sent + [Sent(Ack(block % SEQUENCE_SIZE), peer)];
        case StateData => sent := sent + [Sent(Ack(block % SEQUENCE_SIZE), peer)];
        case StateTooLarge => sent := sent + [Sent(Failure(3), peer)];
        case StateBadMagic => sent := sent + [Sent(Failure(2), peer)];
      }
    }

    method TftpHandler(p: Packet, port: nat)
      modifies this
      ensures (View(), sent) == var (c, out) := Receive(old(View()), p, port); (c, old(sent) + out)
      ensures Handled(old(View()), p, port, View(), sent[|old(sent)|..])
    {
      ReceiveMeets(View(), p, port);
      assert sent + [] == sent;
      peer := port;
      if state != StateRrq && port != serverPort {
        return;
      }
      match p {
        case Short =>
        case Ignored =>
        case ShortData =>
        case Oack(blksize) =>
          state := StateOack;
          serverPort := port;
          if blksize.Some? {
            blkSize := blksize.value % SEQUENCE_SIZE;
          }
          TftpSend();
        case Data(number, payload) =>
          TakeData(number, payload, port);
      }
    }

    /** The DATA case of TftpHandler. */
    method TakeData(number: nat, payload: seq<byte>, port: nat)
      requires peer == port && (state != StateRrq ==> port == serverPort)
      modifies this
      ensures (View(), sent) == var (c, out) := Receive(old(View()), Data(number, payload), port); (c, old(sent) + out)
    {
      assert sent + [] == sent;
      block := number % SEQUENCE_SIZE;
      if state == StateRrq || state == StateOack {
        state := StateData;
        serverPort := port;
        lastBlock := 0;
        if block != 1 {
          return;
        }
      }
      if block == lastBlock {
        TftpSend();
        return;
      }
      lastBlock := block;
      calls := calls + [Call(StoreArg(block), payload)];
      TftpSend();
      if |payload| < blkSize {
        running := false;
      }
    }

    method TftpTimeout()
      modifies this`timeoutCount, this`sent
      ensures (View(), sent) == var (c, out) := Timeout(old(View())); (c, old(sent) + out)
    {
      assert sent + [] == sent;
      timeoutCount := timeoutCount + 1;
      if timeoutCount <= TIMEOUT_COUNT {
        TftpSend();
      }
    }
  }
}
