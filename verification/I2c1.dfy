/** What happens on a two-wire bus, one symbol at a time. */
module I2cBus {
  import opened Bytes

  datatype Symbol = Start(address: byte) | Send(data: byte) | Receive(data: byte) | Ack | Nack | Stop

  /** The address byte of a 7-bit slave; the register that holds it is eight bits wide. */
  function Address(id: byte, read: bool): (b: byte)
    ensures b % 2 == (if read then 1 else 0) && b / 2 == id % 128
  {
    2 * id % 256 + if read then 1 else 0
  }

  function Sends(data: seq<byte>): (t: seq<Symbol>)
    ensures |t| == |data| && forall i :: 0 <= i < |t| ==> t[i] == Send(data[i])
  {
    seq(|data|, i requires 0 <= i < |data| => Send(data[i]))
  }

  /** With a counter that wraps at w, all the data goes out exactly if it is shorter than that. */
  lemma SendsAreWhole(before: seq<Symbol>, data: seq<byte>, w: nat)
    requires 0 < w
    ensures before + Sends(data[..|data| % w]) + [Stop] == before + Sends(data) + [Stop] <==> |data| < w
  {
    if |data| < w {
      DivModUnique(|data|, w, 0, |data|);
      assert data[..|data|] == data;
    } else {
      assert |before + Sends(data[..|data| % w]) + [Stop]| < |before + Sends(data) + [Stop]|;
    }
  }
}

/** The byte-at-a-time I2C driver: an interrupt per symbol. */
module I2c1 {
  import opened Bytes
  import opened I2cBus

  /** What a write of data to register reg of slave id looks like on the bus, up to the stop. */
  function WriteTrace(id: byte, reg: byte, data: seq<byte>): (t: seq<Symbol>) {
    [Start(Address(id, false)), Send(reg)] + Sends(data)
  }

  /** How a read begins: the register is written, then the slave is addressed again for reading. */
  function ReadHead(id: byte, reg: byte): (t: seq<Symbol>) {
    [Start(Address(id, false)), Send(reg), Start(Address(id, true))]
  }

  /** Received bytes, all of them acknowledged. */
  function Acked(data: seq<byte>): (t: seq<Symbol>) {
    if data == [] then [] else Acked(data[..|data| - 1]) + [Receive(data[|data| - 1]), Ack]
  }

  /** A whole read: every byte but the last is acknowledged. */
  function ReadTrace(id: byte, reg: byte, data: seq<byte>): (t: seq<Symbol>)
    requires data != []
  {
    ReadHead(id, reg) + Acked(data[..|data| - 1]) + [Receive(data[|data| - 1]), Nack, Stop]
  }

  class I2c1 {
    // gi2c1; pData is an index into the user buffer
    var txMode: bool
    var regAddr: byte
    var remainNum: nat
    var buffer: seq<byte>
    var pData: nat
    var salveId: byte
    var addrFlag: bv8
    var transDone: bool
    var errorNo: nat
    // the configuration and data registers
    var sta: bool
    var sto: bool
    var ackTx: bool
    var txEnable: bool
    var dat: byte
    // the bus, and whether the last received byte still waits for its answer
    var bus: seq<Symbol>
    var unanswered: bool

    constructor ()
      ensures !transDone && !sto && !unanswered && bus == []
    {
      txMode, regAddr, remainNum, buffer, pData, salveId, addrFlag := false, 0, 0, [], 0, 0, 0;
      transDone, errorNo, sta, sto, ackTx, txEnable := false, 0, false, false, false, false;
      dat, bus, unanswered := 0, [], false;
    }

    /** The bus symbols a pending answer turns into. */
    ghost function Answer(): seq<Symbol>
      reads this
    {
      if !unanswered then [] else if ackTx then [Ack] else [Nack]
    }

    /** The hardware goes on when the interrupt flag is cleared; `incoming` is what the slave sends, if it does. */
    method Release(incoming: byte)
      modifies this`sto, this`dat, this`bus, this`unanswered
      ensures old(sto) ==> bus == old(bus) + old(Answer()) + [Stop] && !sto && !unanswered
      ensures !old(sto) && (sta || txEnable) ==> bus == old(bus) + [if sta then Start(dat) else Send(dat)]
      ensures !old(sto) && (sta || txEnable) ==> dat == old(dat) && unanswered == old(unanswered)
      ensures !old(sto) && !sta && !txEnable ==> bus == old(bus) + old(Answer()) + [Receive(incoming)]
      ensures !old(sto) && !sta && !txEnable ==> dat == incoming && unanswered
      ensures !sto
    {
      if sto {
        bus := bus + (if !unanswered then [] else if ackTx then [Ack] else [Nack]) + [Stop];
        sto, unanswered := false, false;
      } else if sta {
        bus := bus + [Start(dat)];
      } else if txEnable {
        bus := bus + [Send(dat)];
      } else {
        bus := bus + (if !unanswered then [] else if ackTx then [Ack] else [Nack]) + [Receive(incoming)];
        dat, unanswered := incoming, true;
      }
    }

    /** The bytes a write really transfers: RemainNum is 16 bits wide. */
    ghost function Outgoing(): (t: seq<Symbol>)
      reads this`salveId, this`regAddr, this`buffer
      ensures |t| == 2 + |buffer| % U16
    {
      WriteTrace(salveId, regAddr, buffer[..|buffer| % U16])
    }

    /** The driver's state of a write when k symbols are on the bus. */
    ghost predicate Writing(k: nat)
      reads this
    {
      && txMode && 1 <= k <= |Outgoing()| && txEnable && !sto && !transDone && !unanswered && errorNo == 0
      && addrFlag == (if k == 1 then 0 else 0x13)
      && pData == (if k == 1 then 0 else k - 2) && remainNum + pData == |buffer| % U16
    }

    /** The write branch of the interrupt handler. */
    method IsrWrite(ackRx: bool, ghost k: nat)
      requires Writing(k)
      modifies this`sta, this`sto, this`transDone, this`dat, this`pData, this`remainNum, this`addrFlag
      ensures !sta
      ensures if ackRx && k < |Outgoing()| then Writing(k + 1) && Outgoing()[k] == Send(dat) else sto && transDone
    {
      sta := false;
      if !ackRx {
        sto, transDone := true, true;
        return;
      }
      if addrFlag & 0x10 != 0 {
        if remainNum == 0 {
          sto, transDone := true, true;
        } else {
          dat := buffer[pData];
          pData, remainNum := pData + 1, remainNum - 1;
        }
        return;
      }
      if addrFlag & 0x08 == 0 {
        dat := regAddr;
        addrFlag := addrFlag | 0x13;
      }
    }

    /** The fields of gi2c1 at the beginning of a transfer. */
    method Prepare(write: bool, id: byte, reg: byte, count: nat, userBuf: seq<byte>)
      modifies this`txMode, this`regAddr, this`remainNum, this`buffer, this`pData, this`salveId, this`addrFlag
      modifies this`transDone, this`errorNo
      ensures txMode == write && regAddr == reg && salveId == id && buffer == userBuf && pData == 0
      ensures remainNum == count % U16 && addrFlag == 0 && !transDone && errorNo == 0
    {
      txMode, regAddr, remainNum, buffer, pData := write, reg, count % U16, userBuf, 0;
      salveId, addrFlag, transDone, errorNo := id, 0, false, 0;
    }

    /** The common beginning of i2c1_read and i2c1_write: the slave is addressed for writing. */
    method Begin(write: bool, id: byte, reg: byte, count: nat, userBuf: seq<byte>)
      requires !transDone && !sto && !unanswered
      modifies this
      ensures buffer == userBuf && regAddr == reg && salveId == id && bus == old(bus) + [Start(Address(id, false))]
      ensures txMode == write && !transDone && errorNo == 0 && sta && !sto && txEnable && !unanswered
      ensures addrFlag == 0 && pData == 0 && remainNum == count % U16
    {
      Prepare(write, id, reg, count, userBuf);
      txEnable, dat, sta := true, Address(id, false), true;
      Release(0);
    }

    /** An interrupt of a write and what the bus makes of it: one more symbol, or the stop. */
    method WriteInterrupt(ackRx: bool, ghost k: nat)
      requires Writing(k)
      modifies this`sta, this`sto, this`transDone, this`dat, this`pData, this`remainNum, this`addrFlag
      modifies this`bus, this`unanswered
      ensures if ackRx && k < |Outgoing()| then Writing(k + 1) && bus == old(bus) + [Outgoing()[k]]
              else transDone && !sto && !unanswered && bus == old(bus) + [Stop]
    {
      IsrWrite(ackRx, k);
      Release(0);
    }

    /** The interrupts of a write, up to the first symbol that is not taken. */
    method SendAll(acks: nat -> bool, ghost base: seq<Symbol>) returns (m: nat)
      requires Writing(1) && bus == base + [Outgoing()[0]]
      modifies this`sta, this`sto, this`transDone, this`dat, this`pData, this`remainNum, this`addrFlag
      modifies this`bus, this`unanswered
      ensures transDone && !sto && !unanswered && 1 <= m <= |Outgoing()| && bus == base + Outgoing()[..m] + [Stop]
      ensures (forall i: nat :: i < m - 1 ==> acks(i)) && (m < |Outgoing()| ==> !acks(m - 1))
    {
      m := 1;
      ghost var t := Outgoing();
      assert t[..1] == [t[0]];
      while !transDone
        invariant 1 <= m <= |t| && forall i: nat :: i < m - 1 ==> acks(i)
        invariant if transDone then !sto && !unanswered && bus == base + t[..m] + [Stop] && (m < |t| ==> !acks(m - 1))
                  else Writing(m) && bus == base + t[..m]
        decreases if transDone then 0 else |t| - m + 1
      {
        WriteInterrupt(acks(m - 1), m);
        if !transDone {
          assert t[..m + 1] == t[..m] + [t[m]];
          m := m + 1;
        }
      }
    }

    /**
     i2c1_write with its wait for the interrupts; acks(i) says whether the slave takes symbol i. The bus sees
     the register and the data up to the first symbol that is not taken, then a stop. If the slave takes
     everything, the whole buffer goes out exactly when it is shorter than 65536 bytes. The result is always 0.
     */
    method Write(id: byte, reg: byte, userBuf: seq<byte>, acks: nat -> bool) returns (error: nat, m: nat)
      requires !transDone && !sto && !unanswered
      modifies this
      ensures var t := WriteTrace(id, reg, userBuf[..|userBuf| % U16]);
        && 1 <= m <= |t| && bus == old(bus) + t[..m] + [Stop]
        && (forall i: nat :: i < m - 1 ==> acks(i)) && (m < |t| ==> !acks(m - 1))
      ensures error == 0 && !transDone && !sto && !unanswered
      ensures (forall i: nat :: acks(i)) ==> (
        bus == old(bus) + WriteTrace(id, reg, userBuf) + [Stop] <==> |userBuf| < U16)
    {
      Begin(true, id, reg, |userBuf|, userBuf);
      m := SendAll(acks, old(bus));
      error := errorNo;
      transDone := false;
      SendsAreWhole(old(bus) + [Start(Address(id, false)), Send(reg)], userBuf, U16);
    }

    /** The driver's state of a read when k symbols of its head are on the bus. */
    ghost predicate Addressing(k: nat, count: nat)
      reads this
    {
      && !txMode && 1 <= k <= 3 && !sto && !transDone && !unanswered && txEnable && sta == (k != 2) && errorNo == 0
      && addrFlag == (if k == 1 then 0 else if k == 2 then 0x0A else 0x1B)
      && pData == |buffer| == 0 && remainNum == count % U16
    }

    /** The driver's state of a read when a byte has arrived. */
    ghost predicate Reading(count: nat)
      reads this
    {
      && !txMode && !sto && !transDone && unanswered && !txEnable && !sta && errorNo == 0 && addrFlag == 0x1B
      && pData == |buffer| < Received(count)
      && remainNum == if pData == 0 then count % U16 else Received(count) - pData
    }

    /** The read branch of the interrupt handler. */
    method IsrRead(ackRx: bool, ghost k: nat, ghost count: nat)
      requires if k <= 3 then Addressing(k, count) else Reading(count)
      modifies this`sta, this`sto, this`transDone, this`errorNo, this`txEnable, this`ackTx
      modifies this`dat, this`buffer, this`pData, this`remainNum, this`addrFlag
      ensures transDone == sto
      ensures k <= 3 && !ackRx ==> sto && buffer == [] && errorNo == if k < 3 then 1 else 0
      ensures k < 3 && ackRx ==> Addressing(k + 1, count)
      ensures k < 3 && ackRx ==> ReadHead(salveId, regAddr)[k] == if sta then Start(dat) else Send(dat)
      ensures k == 3 && ackRx ==> (
        && !sto && !sta && !txEnable && pData == |buffer| == 0 && remainNum == count % U16
        && addrFlag == 0x1B && errorNo == 0)
      ensures k > 3 ==> (
        && !sta && !txEnable && errorNo == 0 && addrFlag == 0x1B
        && buffer == old(buffer) + [old(dat)] && pData == |buffer|
        && remainNum == Received(count) - |buffer| && sto == (remainNum == 0) && ackTx == !sto)
    {
      var wasSta := sta;
      sta := false;
      if addrFlag & 0x10 == 0 && !ackRx {
        sto, transDone, errorNo := true, true, 1;
      } else if wasSta && !ackRx {
        sto, transDone := true, true;
      } else if addrFlag & 0x10 != 0 {
        txEnable := false;
        if wasSta {
          ackTx := true;
        } else {
          buffer, pData := buffer + [dat], pData + 1;
          remainNum := (remainNum + U16 - 1) % U16;
          ackTx := remainNum != 0;
          if remainNum == 0 {
            sto, transDone := true, true;
          }
        }
      } else if addrFlag & 0x08 == 0 {
        dat := regAddr;
        addrFlag := (addrFlag & 0xF4) | 0x0A;
      } else {
        sta := true;
        dat := 2 * salveId % 256 + 1;
        addrFlag := addrFlag | 0x13;
      }
    }

    /** An interrupt while the slave is addressed. */
    method AddressInterrupt(ackRx: bool, incoming: byte, ghost k: nat, ghost count: nat)
      requires Addressing(k, count)
      modifies this`sta, this`sto, this`transDone, this`errorNo, this`txEnable, this`ackTx, this`bus, this`unanswered
      modifies this`dat, this`buffer, this`pData, this`remainNum, this`addrFlag
      ensures buffer == []
      ensures if !ackRx then
                transDone && !sto && !unanswered && bus == old(bus) + [Stop] && errorNo == if k < 3 then 1 else 0
              else if k < 3 then Addressing(k + 1, count) && bus == old(bus) + [ReadHead(salveId, regAddr)[k]]
              else Reading(count) && dat == incoming && bus == old(bus) + [Receive(incoming)]
    {
      IsrRead(ackRx, k, count);
      Release(incoming);
    }

    /** The interrupts up to the first byte, or up to the symbol of the head that is not taken. */
    method AddressAll(acks: nat -> bool, incoming: byte, count: nat, ghost base: seq<Symbol>) returns (ghost m: nat)
      requires Addressing(1, count) && bus == base + [ReadHead(salveId, regAddr)[0]]
      modifies this`sta, this`sto, this`transDone, this`errorNo, this`txEnable, this`ackTx, this`bus, this`unanswered
      modifies this`dat, this`buffer, this`pData, this`remainNum, this`addrFlag
      ensures m <= 3 && (forall i: nat :: i < m ==> acks(i)) && buffer == []
      ensures if m < 3 then
                !acks(m) && transDone && !sto && !unanswered && errorNo == (if m < 2 then 1 else 0)
                && bus == base + ReadHead(salveId, regAddr)[..m + 1] + [Stop]
              else
                Reading(count) && dat == incoming && bus == base + ReadHead(salveId, regAddr) + [Receive(dat)]
    {
      var k := 1;
      ghost var head := ReadHead(salveId, regAddr);
      assert head[..1] == [head[0]];
      while !transDone && k <= 3
        invariant 1 <= k <= 4 && buffer == [] && forall i: nat :: i < k - 1 ==> acks(i)
        invariant if transDone then k <= 3 && !acks(k - 1) && errorNo == (if k < 3 then 1 else 0) && !sto && !unanswered
                    && bus == base + head[..k] + [Stop]
                  else if k <= 3 then Addressing(k, count) && bus == base + head[..k]
                  else Reading(count) && bus == base + head + [Receive(dat)] && dat == incoming
        decreases if transDone then 0 else 5 - k
      {
        AddressInterrupt(acks(k - 1), incoming, k, count);
        if !transDone {
          assert k < 3 ==> head[..k + 1] == head[..k] + [head[k]];
          k := k + 1;
        }
      }
      m := k - 1;
    }

    /** An interrupt for a received byte, which is answered; the last one is refused and the stop follows. */
    method DataInterrupt(incoming: byte, ghost count: nat)
      requires Reading(count)
      modifies this`sta, this`sto, this`transDone, this`errorNo, this`txEnable, this`ackTx, this`bus, this`unanswered
      modifies this`dat, this`buffer, this`pData, this`remainNum, this`addrFlag
      ensures buffer == old(buffer) + [old(dat)] && errorNo == 0
      ensures if |buffer| == Received(count) then transDone && !sto && !unanswered && bus == old(bus) + [Nack, Stop]
              else Reading(count) && dat == incoming && bus == old(bus) + [Ack, Receive(incoming)]
    {
      IsrRead(true, 4, count);
      Release(incoming);
    }

    /** The same interrupt on the whole of what has been read. */
    method ReadStep(slave: nat -> byte, ghost count: nat, ghost base: seq<Symbol>)
      requires Reading(count) && dat == slave(|buffer|) && bus == base + Acked(buffer) + [Receive(dat)]
      modifies this`sta, this`sto, this`transDone, this`errorNo, this`txEnable, this`ackTx, this`bus, this`unanswered
      modifies this`dat, this`buffer, this`pData, this`remainNum, this`addrFlag
      ensures buffer == old(buffer) + [slave(|old(buffer)|)] && errorNo == 0
      ensures if |buffer| == Received(count) then
                transDone && !sto && !unanswered
                && bus == base + Acked(buffer[..|buffer| - 1]) + [Receive(buffer[|buffer| - 1]), Nack, Stop]
              else
                Reading(count) && dat == slave(|buffer|) && bus == base + Acked(buffer) + [Receive(dat)]
    {
      ghost var (had, d) := (buffer, dat);
      DataInterrupt(slave(|buffer| + 1), count);
      assert buffer[..|buffer| - 1] == had;
      AckedMore(base, had, d, slave(|buffer|));
    }

    /** The rest of a read once the first byte has arrived. */
    method ReadAll(count: nat, slave: nat -> byte, ghost base: seq<Symbol>)
      requires Reading(count) && buffer == [] && dat == slave(0) && bus == base + [Receive(dat)]
      modifies this`sta, this`sto, this`transDone, this`errorNo, this`txEnable, this`ackTx, this`bus, this`unanswered
      modifies this`dat, this`buffer, this`pData, this`remainNum, this`addrFlag
      ensures transDone && !sto && !unanswered && errorNo == 0
      ensures |buffer| == Received(count) && forall i :: 0 <= i < |buffer| ==> buffer[i] == slave(i)
      ensures bus == base + Acked(buffer[..|buffer| - 1]) + [Receive(buffer[|buffer| - 1]), Nack, Stop]
    {
      while !transDone
        invariant |buffer| <= Received(count) && forall i :: 0 <= i < |buffer| ==> buffer[i] == slave(i)
        invariant !transDone ==> Reading(count) && dat == slave(|buffer|)
        invariant !transDone ==> bus == base + Acked(buffer) + [Receive(dat)]
        invariant transDone ==> !sto && !unanswered && errorNo == 0 && |buffer| == Received(count)
        invariant transDone ==> (
          bus == base + Acked(buffer[..|buffer| - 1]) + [Receive(buffer[|buffer| - 1]), Nack, Stop])
        decreases !transDone, Received(count) - |buffer|
      {
        ReadStep(slave, count, base);
      }
    }

    /**
     i2c1_read with its wait for the interrupts. If the slave takes both addresses and the register, the bus
     sees a whole read of Received(count) bytes and they are stored in order. Otherwise a stop follows the
     symbol that was not taken; that is reported, unless it was the second address.
     */
    method Read(id: byte, reg: byte, count: nat, acks: nat -> bool, slave: nat -> byte)
      returns (error: nat, stored: seq<byte>)
      requires !transDone && !sto && !unanswered
      modifies this
      ensures acks(0) && acks(1) && acks(2) ==>
        |stored| == Received(count) && (forall i :: 0 <= i < |stored| ==> stored[i] == slave(i))
        && bus == old(bus) + ReadTrace(id, reg, stored) && error == 0
      ensures forall m: nat :: m < 3 && !acks(m) && (forall i: nat :: i < m ==> acks(i)) ==>
        bus == old(bus) + ReadHead(id, reg)[..m + 1] + [Stop] && stored == [] && error == if m < 2 then 1 else 0
      ensures !transDone && !sto && !unanswered
    {
      Begin(false, id, reg, count, []);
      ghost var m := AddressAll(acks, slave(0), count, old(bus));
      if !transDone {
        ReadAll(count, slave, old(bus) + ReadHead(id, reg));
      }
      error, stored := errorNo, buffer;
      transDone := false;
    }
  }

  lemma AckedMore(base: seq<Symbol>, data: seq<byte>, d: byte, next: byte)
    ensures base + Acked(data) + [Receive(d)] + [Ack, Receive(next)] == base + Acked(data + [d]) + [Receive(next)]
    ensures base + Acked(data) + [Receive(d)] + [Nack, Stop] == base + Acked(data) + [Receive(d), Nack, Stop]
  {
    assert (data + [d])[..|data|] == data;
  }

  /** How many bytes a read of `count` bytes stores: a 16-bit counter that starts at 0 runs all the way round. */
  function Received(count: nat): (n: nat)
    ensures 1 <= n <= U16
    ensures n == count <==> 1 <= count <= U16
  {
    if count % U16 == 0 then U16 else count % U16
  }
}
