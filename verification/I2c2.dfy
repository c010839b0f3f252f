/**
 The burst-at-a-time I2C driver as a master with 7-bit addresses: an interrupt per FIFO load. Two mode bits of
 the status register say how full or empty the FIFO is at an interrupt, and they outlive a transfer.
 */
module I2c2 {
  import opened Bytes
  import opened I2cBus

  const U8: nat := 256

  // what the FIFO of the device holds
  const FIFO_LEN: nat := 16

  const RW_BIT: bv8 := 0x01
  const MS_BIT: bv8 := 0x02
  const AL_BIT: bv8 := 0x04
  const IA_BIT: bv8 := 0x08

  /** Bytes that a master read fetches at an interrupt. */
  function Drain(mode: bv2): (d: nat)
    ensures 1 <= d <= 12
  {
    if mode == 0 then 12 else if mode == 1 then 8 else if mode == 2 then 4 else 1
  }

  /** Bytes that a master write may store at an interrupt. */
  function Room(mode: bv2): (d: nat)
    ensures 4 <= d <= 16
  {
    if mode == 0 then 16 else if mode == 1 then 12 else if mode == 2 then 8 else 4
  }

  /** The mode i2c2_send_start asks for. */
  function ModeFor(read: bool, n: nat): bv2 {
    if read then
      if n > 12 then 0 else if n > 8 then 1 else if n > 4 then 2 else 3
    else
      if n < 4 then 0 else 1
  }

  /**
   The mode asked for is the one with the longest bursts that do not finish a read at once, if there is one; for a
   write it is only whether four bytes are to go out.
   */
  lemma ModeIsLongest(n: nat, other: bv2)
    ensures var m := ModeFor(true, n);
      && (Drain(m) < n || m == 3) && (Drain(other) < n ==> Drain(other) <= Drain(m))
    ensures ModeFor(false, n) == 0 <==> n < 4
    ensures Room(ModeFor(false, n)) == if n < 4 then 16 else 12
    ensures Drain(0) == 12 && Drain(1) == 8 && Drain(2) == 4 && Drain(3) == 1
    ensures Room(0) == 16 && Room(1) == 12 && Room(2) == 8 && Room(3) == 4
  {
    assert other == 0 || other == 1 || other == 2 || other == 3;
  }

  /** A leftover mode can only make the bursts shorter, so the first one never takes more than was asked for. */
  lemma FirstBurstFits(leftover: bv2, n: nat)
    ensures Drain(leftover | ModeFor(true, n)) <= n <==> n > 0
  {
    var m := ModeFor(true, n);
    assert leftover | 0 == leftover && leftover | 3 == 3;
    assert m == 1 ==> leftover | m == 1 || leftover | m == 3;
    assert m == 2 ==> leftover | m == 2 || leftover | m == 3;
  }

  /** What a master read of n bytes stores if its first burst has d bytes: the rest is counted in eight bits. */
  function Total(n: nat, d: nat): (t: nat)
    ensures t - d < U8 && t >= d
  {
    d + (n - d) % U8
  }

  /** A master read stores what was asked for exactly up to 255 bytes more than its first burst. */
  lemma TotalIsExact(leftover: bv2, n: nat)
    ensures var d := Drain(leftover | ModeFor(true, n));
      Total(n, d) == n <==> 1 <= n <= 255 + d
  {
    FirstBurstFits(leftover, n);
  }

  /** What precedes the data on the bus. */
  function Head(id: byte, inner: bool, innerAddr: byte, read: bool): (t: seq<Symbol>)
    ensures |t| == if !inner then 1 else if read then 3 else 2
  {
    if !inner then [Start(Address(id, read))]
    else [Start(Address(id, false)), Send(innerAddr)] + if read then [Start(Address(id, true))] else []
  }

  function Receives(data: seq<byte>): (t: seq<Symbol>)
    ensures |t| == |data| && forall i :: 0 <= i < |t| ==> t[i] == Receive(data[i])
  {
    seq(|data|, i requires 0 <= i < |data| => Receive(data[i]))
  }

  /** Bursts extend what is on the bus along the trace. */
  lemma TraceStep(base: seq<Symbol>, head: seq<Symbol>, data: seq<byte>, c: nat, d: nat)
    requires c <= d <= |data| && 0 < |head|
    ensures var t := head + Sends(data);
      && base + t[..|head| + c] + Sends(data[c..d]) == base + t[..|head| + d]
      && base + t[..|head| - 1] + [head[|head| - 1]] == base + t[..|head|]
  {
    var t := head + Sends(data);
    assert t[..|head| + d] == t[..|head| + c] + Sends(data[c..d]);
    assert t[..|head|] == t[..|head| - 1] + [head[|head| - 1]];
  }

  /** When the whole trace is on the bus, it is the whole buffer's exactly for up to 255 bytes. */
  lemma WholeWrite(before: seq<Symbol>, bus: seq<Symbol>, head: seq<Symbol>, data: seq<byte>, m: nat)
    requires m <= |head + Sends(data[..|data| % U8])|
    requires bus == before + (head + Sends(data[..|data| % U8]))[..m] + [Stop]
    ensures m == |head + Sends(data[..|data| % U8])| ==> (
      bus == before + head + Sends(data) + [Stop] <==> |data| < U8)
  {
    var t := head + Sends(data[..|data| % U8]);
    if m == |t| {
      assert t[..m] == t && before + t == before + head + Sends(data[..|data| % U8]);
      SendsAreWhole(before + head, data, U8);
    }
  }

  class I2c2 {
    // gi2c2; the user buffer of a write, or what a read has stored there
    var wkMode: bv8
    var innerAddr: byte
    var sendAddr: byte
    var currentNum: nat
    var allDataNum: nat
    var pData: seq<byte>
    var addrFlag: bv8
    var transDone: bool
    // the status register
    var intMode: bv2
    var ack: bool
    var sto: bool
    var sta: bool
    // bytes written to the data register since the last interrupt, and the bus
    var fifo: seq<byte>
    var bus: seq<Symbol>

    constructor (mode: bv8, leftover: bv2)
      ensures wkMode == mode && intMode == leftover && bus == [] && fifo == [] && !sto
    {
      wkMode, innerAddr, sendAddr, currentNum, allDataNum, pData, addrFlag, transDone := mode, 0, 0, 0, 0, [], 0, false;
      intMode, ack, sto, sta, fifo, bus := leftover, false, false, false, [], [];
    }

    /** The hardware goes on when the interrupt flag is cleared: it stops, or it sends what it was given. */
    method Release()
      requires |fifo| <= FIFO_LEN && (sta ==> |fifo| == 1)
      modifies this`sto, this`fifo, this`bus
      ensures fifo == [] && !sto
      ensures bus == old(bus) + if old(sto) then [Stop] else if sta then [Start(old(fifo)[0])] else Sends(old(fifo))
    {
      if sto {
        bus := bus + [Stop];
      } else if sta {
        bus := bus + [Start(fifo[0])];
      } else {
        bus := bus + Sends(fifo);
      }
      sto, fifo := false, [];
    }

    predicate Inner()
      reads this`wkMode
    {
      wkMode & IA_BIT != 0
    }

    predicate Master()
      reads this`wkMode
    {
      wkMode & MS_BIT == 0 && wkMode & AL_BIT == 0 && wkMode & 0xF0 == 0
    }

    /** i2c2_send_addr for 7-bit addresses. */
    method SendAddr()
      requires Master() && fifo == [] && addrFlag == 0
      modifies this`fifo, this`addrFlag
      ensures fifo == [Address(sendAddr, wkMode == RW_BIT)]
      ensures addrFlag == if Inner() then 1 else 0x13
    {
      fifo := fifo + [2 * sendAddr % 256 + if wkMode == RW_BIT then 1 else 0];
      addrFlag := addrFlag + 1;
      if wkMode == 0 || wkMode == RW_BIT {
        addrFlag := addrFlag | 0x13;
      }
    }

    /** i2c2_send_start: the mode is added to the bits that are there. */
    method SendStart()
      requires Master() && fifo == [] && addrFlag == 0 && !sto
      modifies this`fifo, this`addrFlag, this`intMode, this`sta
      ensures fifo == [Address(sendAddr, wkMode == RW_BIT)] && sta
      ensures addrFlag == if Inner() then 1 else 0x13
      ensures intMode == old(intMode) | ModeFor(wkMode & RW_BIT != 0, allDataNum)
    {
      var mode := ModeFor(wkMode & RW_BIT != 0, allDataNum);
      SendAddr();
      intMode := intMode | mode;
      sta := true;
    }

    /** remain_data_cnt, an eight-bit number. */
    function Remain(): nat
      reads this`allDataNum, this`currentNum
    {
      (allDataNum - currentNum) % U8
    }

    // ----- write -----

    /** A write that has all of its head and c data bytes on the bus or in the FIFO. */
    ghost predicate Sending(c: nat)
      reads this
    {
      && !transDone && !sto && Master() && wkMode & RW_BIT == 0 && addrFlag == 0x13
      && currentNum == c <= |pData| % U8 && allDataNum == |pData|
    }

    /** The copy loop of the write branch. */
    method Push(num: nat)
      requires currentNum + num <= |pData|
      modifies this`fifo, this`currentNum
      ensures fifo == old(fifo) + pData[old(currentNum)..old(currentNum) + num] && currentNum == old(currentNum) + num
    {
      for i := 0 to num
        invariant currentNum == old(currentNum) + i
        invariant fifo == old(fifo) + pData[old(currentNum)..currentNum]
      {
        fifo := fifo + [pData[currentNum]];
        currentNum := currentNum + 1;
      }
    }

    /** A load of `num` bytes when `left` have to go out, and the mode it leaves: as many as there is room for. */
    static ghost predicate Burst(mode: bv2, left: nat, num: nat, after: bv2) {
      num == Min(left, Room(mode)) && after == if 0 < left < num + Room(mode) then 0 else mode
    }

    /** The data part of the write branch: a load of the FIFO, or the stop after the last one. */
    method Load(ghost c: nat)
      requires fifo == [] && Sending(c) && !sta
      modifies this`fifo, this`currentNum, this`transDone, this`intMode, this`sto
      ensures if c == |pData| % U8 then sto && transDone && fifo == []
              else Sending(c + |fifo|) && 0 < |fifo| && fifo == pData[c..c + |fifo|]
      ensures Burst(old(intMode), |pData| % U8 - c, |fifo|, intMode)
    {
      RemainIs(allDataNum, c);
      var remain := Remain();
      if remain == 0 {
        sto, transDone := true, true;
      } else {
        var num := Min(remain, Room(intMode));
        Push(num);
        if remain - num < Room(intMode) {
          intMode := 0;
        }
      }
    }

    /** The write branch of the interrupt handler. */
    method IsrWrite(acked: bool, ghost c: nat)
      requires fifo == [] && if Inner() && addrFlag == 1 then c == 0 && Addressing() else Sending(c)
      modifies this`fifo, this`currentNum, this`addrFlag, this`transDone, this`intMode, this`sto, this`sta
      ensures !sta && (!acked ==> sto && transDone && fifo == [])
      ensures acked && old(addrFlag) == 1 ==> Sending(0) && fifo == [innerAddr]
      ensures acked && old(addrFlag) != 1 && c == |pData| % U8 ==> sto && transDone && fifo == []
      ensures acked && old(addrFlag) != 1 && c < |pData| % U8 ==> (
        Sending(c + |fifo|) && 0 < |fifo| && fifo == pData[c..c + |fifo|])
      ensures if acked && old(addrFlag) != 1 then Burst(old(intMode), |pData| % U8 - c, |fifo|, intMode)
              else |fifo| <= 1 && intMode == old(intMode)
    {
      sta := false;
      if !acked {
        sto, transDone := true, true;
      } else if addrFlag & 0x10 != 0 {
        Load(c);
      } else {
        if wkMode & IA_BIT != 0 && addrFlag & 0x08 == 0 {
          fifo := fifo + [innerAddr];
        }
        addrFlag := addrFlag | 0x13;
      }
    }

    /** A write with an inner address when only the slave's address is on the bus. */
    ghost predicate Addressing()
      reads this
    {
      && !transDone && !sto && Master() && wkMode & RW_BIT == 0 && Inner() && addrFlag == 1
      && currentNum == 0 && allDataNum == |pData|
    }

    /** An interrupt of a write and what the bus makes of it. */
    method WriteInterrupt(acked: bool, ghost c: nat)
      requires fifo == [] && if Inner() && addrFlag == 1 then c == 0 && Addressing() else Sending(c)
      modifies this`fifo, this`currentNum, this`addrFlag, this`transDone, this`intMode, this`sto, this`sta, this`bus
      ensures fifo == [] && !sto
      ensures if !acked || (old(addrFlag) != 1 && c == |pData| % U8) then transDone && bus == old(bus) + [Stop]
              else if old(addrFlag) == 1 then Sending(0) && bus == old(bus) + [Send(innerAddr)]
              else c < currentNum && Sending(currentNum) && bus == old(bus) + Sends(pData[c..currentNum])
      ensures if acked && old(addrFlag) != 1 && c < |pData| % U8
              then Burst(old(intMode), |pData| % U8 - c, currentNum - c, intMode)
              else intMode == old(intMode)
    {
      IsrWrite(acked, c);
      Release();
    }

    /** The bus during a write: the head, then the data in order. */
    ghost function WriteTrace(): (t: seq<Symbol>)
      reads this`sendAddr, this`innerAddr, this`wkMode, this`pData
    {
      Head(sendAddr, Inner(), innerAddr, false) + Sends(pData[..|pData| % U8])
    }

    /** How much of the trace is on the bus. */
    ghost function Progress(): nat
      reads this
    {
      if Inner() && addrFlag == 1 then 1 else currentNum + if Inner() then 2 else 1
    }

    /** The driver's state between two interrupts of a write. */
    ghost predicate Writing()
      reads this
    {
      fifo == [] && !sto && if Inner() && addrFlag == 1 then Addressing() else Sending(currentNum)
    }

    /** The same interrupt in terms of the whole trace. */
    method WriteStep(acked: bool, ghost base: seq<Symbol>)
      requires Writing() && bus == base + WriteTrace()[..Progress()]
      modifies this`fifo, this`currentNum, this`addrFlag, this`transDone, this`intMode, this`sto, this`sta, this`bus
      ensures fifo == [] && !sto
      ensures if transDone then
                bus == base + WriteTrace()[..old(Progress())] + [Stop] && (acked ==> old(Progress()) == |WriteTrace()|)
              else Writing() && acked && old(Progress()) < Progress() && bus == base + WriteTrace()[..Progress()]
    {
      ghost var (c, head, data) := (currentNum, Head(sendAddr, Inner(), innerAddr, false), pData[..|pData| % U8]);
      WriteInterrupt(acked, c);
      if !transDone {
        assert data[c..currentNum] == pData[c..currentNum];
        TraceStep(base, head, data, c, currentNum);
      }
    }

    /**
     The interrupts of a write; acks(i) is the slave's answer at interrupt i. They put the first m symbols of
     the trace on the bus and then a stop; only a refusal makes that fewer than all.
     */
    method SendAll(acks: nat -> bool, ghost base: seq<Symbol>) returns (ghost m: nat, interrupts: nat)
      requires Writing() && Progress() == 1 && bus == base + WriteTrace()[..1]
      modifies this`fifo, this`currentNum, this`addrFlag, this`transDone, this`intMode, this`sto, this`sta, this`bus
      ensures transDone && fifo == [] && !sto && 1 <= m <= |WriteTrace()| && bus == base + WriteTrace()[..m] + [Stop]
      ensures 0 < interrupts && (forall i: nat :: i < interrupts - 1 ==> acks(i))
      ensures acks(interrupts - 1) ==> m == |WriteTrace()|
    {
      interrupts, m := 0, 1;
      ghost var t := WriteTrace();
      while !transDone
        invariant fifo == [] && !sto && 1 <= m <= |t|
        invariant forall i: nat :: i < interrupts - 1 ==> acks(i)
        invariant if transDone then
                    bus == base + t[..m] + [Stop] && 0 < interrupts && (acks(interrupts - 1) ==> m == |t|)
                  else bus == base + t[..m] && Writing() && m == Progress() && (interrupts > 0 ==> acks(interrupts - 1))
        decreases if transDone then 0 else 1 + |t| - m
      {
        WriteStep(acks(interrupts), base);
        interrupts := interrupts + 1;
        if !transDone {
          m := Progress();
        }
      }
    }

    /**
     i2c2_write with its wait. Of n bytes only the first n % 256 are sent, so the whole buffer goes out, if the
     slave takes everything, exactly when n <= 255. The result is 0 whatever the slave answers.
     */
    method Write(slave: byte, op: byte, userBuf: seq<byte>, acks: nat -> bool)
      returns (result: nat, ghost m: nat, interrupts: nat)
      requires Master() && fifo == [] && !sto && |userBuf| < U32
      modifies this
      ensures Master() && fifo == [] && !sto && !transDone && result == 0 && Inner() == old(Inner())
      ensures var t := Head(slave, old(Inner()), op, false) + Sends(userBuf[..|userBuf| % U8]);
        && 1 <= m <= |t| && bus == old(bus) + t[..m] + [Stop]
        && 0 < interrupts && (forall i: nat :: i < interrupts - 1 ==> acks(i)) && (acks(interrupts - 1) ==> m == |t|)
      ensures (forall i: nat :: acks(i)) ==> (
        bus == old(bus) + Head(slave, old(Inner()), op, false) + Sends(userBuf) + [Stop] <==> |userBuf| < U8)
    {
      BeginWrite(slave, op, userBuf);
      m, interrupts := SendAll(acks, old(bus));
      transDone, result := false, 0;
      WholeWrite(old(bus), bus, Head(slave, old(Inner()), op, false), userBuf, m);
    }

    /** The fields of gi2c2 at the beginning of a transfer. */
    method Prepare(slave: byte, op: byte, count: nat, buffer: seq<byte>, mode: bv8)
      modifies this`addrFlag, this`transDone, this`currentNum, this`allDataNum, this`pData
      modifies this`innerAddr, this`sendAddr, this`wkMode
      ensures addrFlag == 0 && !transDone && currentNum == 0 && allDataNum == count && pData == buffer
      ensures innerAddr == op && sendAddr == slave && wkMode == mode
    {
      addrFlag, transDone, currentNum, allDataNum, pData := 0, false, 0, count, buffer;
      innerAddr, sendAddr, wkMode := op, slave, mode;
    }

    method BeginWrite(slave: byte, op: byte, userBuf: seq<byte>)
      requires Master() && fifo == [] && !sto && |userBuf| < U32
      modifies this
      ensures Writing() && Progress() == 1 && bus == old(bus) + WriteTrace()[..1]
      ensures Inner() == old(Inner()) && sendAddr == slave && innerAddr == op && pData == userBuf
      ensures intMode == old(intMode) | ModeFor(false, |userBuf|)
    {
      Prepare(slave, op, |userBuf|, userBuf, wkMode & !RW_BIT);
      SendStart();
      Release();
    }

    // ----- read -----

    /** A read with k symbols of its head on the bus. */
    ghost predicate Asking(k: nat)
      reads this
    {
      && !transDone && !sto && fifo == [] && Master() && wkMode & RW_BIT != 0 && pData == [] && currentNum == 0
      && if !Inner() then k == 1 && addrFlag == 0x13 && sta
         else 1 <= k <= 3 && sta == (k != 2) && addrFlag == if k == 1 then 1 else if k == 2 then 0x0A else 0x1B
    }

    /** A read that still has to fetch total - currentNum bytes, never fewer than the next burst. */
    ghost predicate Fetching(total: nat)
      reads this
    {
      && !transDone && !sto && fifo == [] && Master() && wkMode & RW_BIT != 0 && addrFlag & 0x10 != 0 && !sta
      && currentNum == |pData| && Remain() == (total - currentNum) % U8
      && Drain(intMode) <= total - currentNum < Drain(intMode) + U8
    }

    /** The copy loop of the read branch, which also counts remain_data_cnt down in eight bits. */
    method Fetch(num: nat, count: nat, slave: nat -> byte) returns (remain: nat)
      requires currentNum == |pData| && count < U8
      modifies this`pData, this`currentNum, this`bus
      ensures currentNum == |pData| == old(currentNum) + num && remain == (count - num) % U8
      ensures pData == old(pData) + Incoming(slave, old(currentNum), num)
      ensures bus == old(bus) + Receives(Incoming(slave, old(currentNum), num))
    {
      remain := count;
      for i := 0 to num
        invariant currentNum == |pData| == old(currentNum) + i && remain == (count - i) % U8
        invariant pData == old(pData) + Incoming(slave, old(currentNum), i)
        invariant bus == old(bus) + Receives(Incoming(slave, old(currentNum), i))
      {
        CountsDown(count - i);
        pData, bus := pData + [slave(currentNum)], bus + [Receive(slave(currentNum))];
        currentNum := currentNum + 1;
        remain := (remain + U8 - 1) % U8;
      }
    }

    /** The read branch of the interrupt handler while the slave is addressed; the answer only counts after a start. */
    method IsrAsk(acked: bool, ghost k: nat)
      requires Asking(k)
      modifies this`fifo, this`addrFlag, this`transDone, this`ack, this`sto, this`sta
      ensures k != 2 && !acked ==> sto && transDone && !sta && fifo == []
      ensures !(k != 2 && !acked) ==> !sto && !transDone
      ensures !(k != 2 && !acked) && k < |Asked()| ==> (
        |fifo| == 1 && Asked()[k] == (if sta then Start(fifo[0]) else Send(fifo[0])) && sta == (k == 2)
        && addrFlag == if k == 1 then 0x0A else 0x1B)
      ensures !(k != 2 && !acked) && k == |Asked()| ==> fifo == [] && !sta && ack && addrFlag == old(addrFlag)
    {
      var wasSta := sta;
      sta := false;
      if wasSta && !acked {
        sto, transDone := true, true;
      } else if addrFlag & 0x10 != 0 {
        ack := true;
      } else if wkMode & IA_BIT != 0 {
        if addrFlag & 0x08 == 0 {
          fifo := fifo + [innerAddr];
          addrFlag := (addrFlag & 0xF4) | 0x0A;
        } else {
          sta := true;
          fifo := fifo + [2 * sendAddr % 256 + 1];
          addrFlag := addrFlag | 0x13;
        }
      }
    }

    ghost function Asked(): (t: seq<Symbol>)
      reads this`sendAddr, this`innerAddr, this`wkMode
    {
      Head(sendAddr, Inner(), innerAddr, true)
    }

    /** The read branch of the interrupt handler when there is data. */
    method IsrFetch(slave: nat -> byte, ghost total: nat)
      requires Fetching(total)
      modifies this`pData, this`currentNum, this`bus, this`transDone, this`intMode, this`ack, this`sto
      ensures old(currentNum) < currentNum == old(currentNum) + Drain(old(intMode)) <= total
      ensures intMode == if 0 < total - currentNum < Drain(old(intMode)) then 3 else old(intMode)
      ensures pData == old(pData) + Incoming(slave, old(currentNum), currentNum - old(currentNum))
      ensures bus == old(bus) + Receives(Incoming(slave, old(currentNum), currentNum - old(currentNum)))
      ensures if currentNum == total then sto && transDone && !ack && |pData| == total else Fetching(total) && ack
    {
      var num := Drain(intMode);
      RemainKeeps(allDataNum, currentNum, total, num);
      var remain := Fetch(num, Remain(), slave);
      assert remain == total - currentNum == Remain();
      Answer(num, remain);
    }

    /** What the read branch decides after a burst of num bytes when `remain` are left. */
    method Answer(num: nat, remain: nat)
      requires num == Drain(intMode)
      modifies this`transDone, this`intMode, this`ack, this`sto
      ensures ack == (remain > 0)
      ensures if remain == 0 then sto && transDone else sto == old(sto) && transDone == old(transDone)
      ensures 0 < remain ==> Drain(intMode) <= remain
      ensures intMode == if 0 < remain < num then 3 else old(intMode)
    {
      if remain == 0 {
        ack, sto, transDone := false, true, true;
      } else if remain < num {
        ack, intMode := true, 3;
      } else {
        ack := true;
      }
    }

    /** An interrupt while the slave is addressed. */
    method AskInterrupt(acked: bool, ghost k: nat)
      requires Asking(k)
      modifies this`fifo, this`addrFlag, this`transDone, this`ack, this`sto, this`sta, this`bus
      ensures fifo == [] && !sto
      ensures if k != 2 && !acked then transDone && bus == old(bus) + [Stop]
              else if k < |Asked()| then Asking(k + 1) && bus == old(bus) + [Asked()[k]]
              else !transDone && !sta && ack && addrFlag == old(addrFlag) && bus == old(bus)
    {
      IsrAsk(acked, k);
      Release();
    }

    /** The interrupts up to the first data, or up to the start that is not answered: then m < |Asked()|. */
    method AskAll(acks: nat -> bool, ghost base: seq<Symbol>) returns (ghost m: nat)
      requires Asking(1) && bus == base + Asked()[..1]
      modifies this`fifo, this`addrFlag, this`transDone, this`ack, this`sto, this`sta, this`bus
      ensures fifo == [] && !sto && 1 <= m <= |Asked()| && m != 2
      ensures forall i: nat :: i < m - 1 && i != 1 ==> acks(i)
      ensures if transDone then !acks(m - 1) && bus == base + Asked()[..m] + [Stop]
              else acks(m - 1) && m == |Asked()| && bus == base + Asked() && !sta && addrFlag & 0x10 != 0
    {
      var k := 1;
      ghost var t := Asked();
      var asking := true;
      while asking
        invariant 1 <= k <= |t| && (asking ==> Asking(k) && bus == base + t[..k])
        invariant forall i: nat :: i < k - 1 && i != 1 ==> acks(i)
        invariant !asking ==> fifo == [] && !sto && k != 2
        invariant !asking && transDone ==> !acks(k - 1) && bus == base + t[..k] + [Stop]
        invariant !asking && !transDone ==> acks(k - 1) && k == |t| && bus == base + t && !sta && addrFlag & 0x10 != 0
        decreases asking, |t| - k
      {
        AskInterrupt(acks(k - 1), k);
        if transDone || k == (if wkMode & IA_BIT != 0 then 3 else 1) {
          asking := false;
          assert t[..|t|] == t;
        } else {
          assert t[..k + 1] == t[..k] + [t[k]];
          k := k + 1;
        }
      }
      m := k;
    }

    /** An interrupt of the data phase, on what has been fetched so far. */
    method FetchInterrupt(slave: nat -> byte, ghost total: nat, ghost base: seq<Symbol>)
      requires Fetching(total) && pData == Incoming(slave, 0, currentNum) && bus == base + Receives(pData)
      modifies this`pData, this`currentNum, this`bus, this`transDone, this`intMode, this`ack, this`sto, this`fifo
      ensures old(currentNum) < currentNum <= total && pData == Incoming(slave, 0, currentNum) && fifo == [] && !sto
      ensures currentNum == old(currentNum) + Drain(old(intMode))
      ensures intMode == if 0 < total - currentNum < Drain(old(intMode)) then 3 else old(intMode)
      ensures if transDone then currentNum == total && !ack && bus == base + Receives(pData) + [Stop]
              else Fetching(total) && bus == base + Receives(pData)
    {
      ghost var c := currentNum;
      IsrFetch(slave, total);
      Extends(slave, c, currentNum - c, base);
      Release();
    }

    /** The interrupts of the data phase. */
    method FetchAll(slave: nat -> byte, ghost total: nat, ghost base: seq<Symbol>)
      requires Fetching(total) && pData == [] && bus == base
      modifies this`pData, this`currentNum, this`bus, this`transDone, this`intMode, this`ack, this`sto, this`fifo
      ensures transDone && !sto && !ack && fifo == []
      ensures pData == Incoming(slave, 0, total) && bus == base + Receives(pData) + [Stop]
    {
      while !transDone
        invariant fifo == [] && !sto && currentNum <= total && pData == Incoming(slave, 0, currentNum)
        invariant if transDone then currentNum == total && !ack && bus == base + Receives(pData) + [Stop]
                  else Fetching(total) && bus == base + Receives(pData)
        decreases if transDone then 0 else 1 + total - currentNum
      {
        FetchInterrupt(slave, total, base);
      }
    }

    method BeginRead(slave: byte, op: byte, count: nat)
      requires Master() && fifo == [] && !sto && count < U32
      modifies this
      ensures Asking(1) && bus == old(bus) + Asked()[..1] && allDataNum == count
      ensures Inner() == old(Inner()) && sendAddr == slave && innerAddr == op
      ensures intMode == old(intMode) | ModeFor(true, count)
    {
      Prepare(slave, op, count, [], wkMode | RW_BIT);
      SendStart();
      Release();
    }

    /**
     i2c2_read with its wait. If the slave answers both starts, the bytes it sends are stored in order, and
     there are as many as were asked for exactly when 1 <= count <= 255 + the first burst. Otherwise nothing is
     stored. A refused inner address goes unnoticed, and the result is 0 in any case.
     */
    method Read(id: byte, op: byte, count: nat, acks: nat -> bool, slave: nat -> byte)
      returns (result: nat, stored: seq<byte>, ghost m: nat)
      requires Master() && fifo == [] && !sto && count < U32
      modifies this
      ensures Master() && fifo == [] && !sto && !transDone && result == 0 && Inner() == old(Inner())
      ensures var (t, d) := (Head(id, old(Inner()), op, true), Drain(old(intMode) | ModeFor(true, count)));
        if acks(0) && (old(Inner()) ==> acks(2)) then
          && stored == Incoming(slave, 0, Total(count, d)) && bus == old(bus) + t + Receives(stored) + [Stop]
          && (|stored| == count <==> 1 <= count <= 255 + d)
        else
          stored == [] && bus == old(bus) + t[..if acks(0) then 3 else 1] + [Stop]
    {
      BeginRead(id, op, count);
      m := AskAll(acks, old(bus));
      ghost var t := Asked();
      if !transDone {
        TotalIsExact(old(intMode), count);
        TotalIsCounted(count, Drain(intMode));
        FetchAll(slave, Total(count, Drain(intMode)), old(bus) + t);
      }
      stored, result, transDone := pData, 0, false;
    }
  }

  lemma TotalIsCounted(n: nat, d: nat)
    ensures Total(n, d) % U8 == n % U8
  {
  }

  lemma Extends(slave: nat -> byte, c: nat, n: nat, base: seq<Symbol>)
    ensures Incoming(slave, 0, c) + Incoming(slave, c, n) == Incoming(slave, 0, c + n)
    ensures base + Receives(Incoming(slave, 0, c)) + Receives(Incoming(slave, c, n))
         == base + Receives(Incoming(slave, 0, c + n))
  {
  }

  lemma CountsDown(c: int)
    ensures (c % U8 + U8 - 1) % U8 == (c - 1) % U8
  {
  }

  lemma RemainIs(n: nat, c: nat)
    requires c <= n % U8
    ensures (n - c) % U8 == n % U8 - c
  {
  }

  /** The eight-bit count of what remains stays right while bytes are fetched. */
  lemma RemainKeeps(n: nat, c: nat, total: nat, num: nat)
    requires (n - c) % U8 == (total - c) % U8
    ensures ((n - c) % U8 - num) % U8 == (total - (c + num)) % U8 == (n - (c + num)) % U8
  {
  }

  /** The n bytes the slave sends from the i-th on. */
  function Incoming(slave: nat -> byte, i: nat, n: nat): (b: seq<byte>)
    ensures |b| == n && forall j :: 0 <= j < n ==> b[j] == slave(i + j)
  {
    seq(n, j requires 0 <= j < n => slave(i + j))
  }
}
