/**
 The polled I2C master driver: the bus primitives, each of which puts one
 event on the bus, and the transactions built from them: a multi-byte
 register read, the IMU's three configuration writes, and a one-register
 read. The peripheral's registers are replaced by a `Master` object that
 records the events on the bus and plays the slave's side from two fixed
 scripts, each with a cursor saying how far the bus has got through it.
 */
module I2CMaster {
  import opened BusEvents
  import opened Transactions

  /** Five events appended one at a time are the five appended at once. */
  lemma AppendFive(t: seq<Event>, a: Event, b: Event, c: Event, d: Event, e: Event)
    ensures t + [a] + [b] + [c] + [d] + [e] == t + [a, b, c, d, e]
  {
  }

  /** Appending three transactions one after another appends their concatenation. */
  lemma AppendThree(t: seq<Event>, x: seq<Event>, y: seq<Event>, z: seq<Event>)
    ensures t + x + y + z == t + (x + y + z)
  {
  }

  /** Closing a read after its header and receive phase gives the whole read. */
  lemma AppendClose(t: seq<Event>, h: seq<Event>, p: seq<Event>, a: Event, b: Event)
    ensures t + h + p + [a] + [b] == t + (h + p + [a, b])
  {
  }

  /** One more acknowledged receive round. */
  lemma ReceiveMore(t: seq<Event>, k: nat)
    ensures t + AckedReceives(k) + [Recv] + [Ack(AckMore)] == t + AckedReceives(k + 1)
  {
  }

  /** The last receive completes the receive phase. */
  lemma ReceiveLast(t: seq<Event>, k: nat)
    ensures t + AckedReceives(k) + [Recv] == t + ReceivePhase(k + 1)
  {
  }

  /** The I2C peripheral with the bus and the slave behind it. */
  class Master {
    /** Every condition and byte the master has put on the bus, oldest first. */
    var trace: seq<Event>
    /** The bytes the slave shifts out on successive receives. */
    const rxScript: seq<Byte>
    /** How many bytes the master has received so far. */
    var received: nat
    /** The ACKSTAT the slave leaves after successive transmitted bytes
        (true = not acknowledged). */
    const ackScript: seq<bool>
    /** How many bytes the master has transmitted so far. */
    var sent: nat
    /** The LED on LATA4, true while lit. */
    var led: bool

    /** A bus on which nothing has happened yet, with a slave that will
        answer from the given scripts. */
    constructor (rxScript: seq<Byte>, ackScript: seq<bool>, led: bool)
      ensures trace == [] && received == 0 && sent == 0
      ensures this.rxScript == rxScript && this.ackScript == ackScript && this.led == led
    {
      this.rxScript := rxScript;
      this.ackScript := ackScript;
      trace := [];
      received := 0;
      sent := 0;
      this.led := led;
    }

    /** Request a START condition. */
    method Start()
      modifies this
      ensures trace == old(trace) + [Event.Start]
      ensures received == old(received) && sent == old(sent) && led == old(led)
    {
      trace := trace + [Event.Start];
    }

    /** Request a repeated START condition. */
    method Restart()
      modifies this
      ensures trace == old(trace) + [Event.Restart]
      ensures received == old(received) && sent == old(sent) && led == old(led)
    {
      trace := trace + [Event.Restart];
    }

    /** Transmit one byte. A byte the slave does not acknowledge turns the
        LED off; the caller is not told and the transaction goes on. */
    method Send(b: Byte)
      modifies this
      ensures trace == old(trace) + [Event.Send(b)]
      ensures sent == old(sent) + 1
      ensures led == (old(led) && !Nth(ackScript, old(sent), true))
      ensures received == old(received)
    {
      trace := trace + [Event.Send(b)];
      var nacked := Nth(ackScript, sent, true);
      sent := sent + 1;
      if nacked {
        led := false;
      }
    }

    /** Receive one byte from the slave. */
    method Recv() returns (b: Byte)
      modifies this
      ensures b == Nth(rxScript, old(received), IdleByte)
      ensures trace == old(trace) + [Event.Recv]
      ensures received == old(received) + 1
      ensures sent == old(sent) && led == old(led)
    {
      trace := trace + [Event.Recv];
      b := Nth(rxScript, received, IdleByte);
      received := received + 1;
    }

    /** Send the acknowledge bit: 0 (ACK) or 1 (NACK). Only the low bit of
        `val` reaches the one-bit ACKDT field. */
    method Ack(val: int)
      modifies this
      ensures trace == old(trace) + [Event.Ack(val % 2)]
      ensures received == old(received) && sent == old(sent) && led == old(led)
    {
      trace := trace + [Event.Ack(val % 2)];
    }

    /** Request a STOP condition, releasing the bus. */
    method Stop()
      modifies this
      ensures trace == old(trace) + [Event.Stop]
      ensures received == old(received) && sent == old(sent) && led == old(led)
    {
      trace := trace + [Event.Stop];
    }

    /** Read `length` bytes starting at register `regAdd` of the slave at
        `address` into `data`, acknowledging every byte but the last. For
        `length <= 0` nothing is received, but the NACK and the STOP are
        still sent. */
    method ReadMultiple(address: Byte, regAdd: Byte, data: array<Byte>, length: int)
      requires length <= data.Length
      modifies this, data
      ensures trace == old(trace) + ReadTrace(address, regAdd, length)
      ensures forall j :: 0 <= j < length ==> data[j] == Nth(rxScript, old(received) + j, IdleByte)
      ensures forall j :: ReceiveCount(length) <= j < data.Length ==> data[j] == old(data[j])
      ensures received == old(received) + ReceiveCount(length)
      ensures sent == old(sent) + 3
      ensures led == (old(led) && !Nacked(ackScript, old(sent), 3))
    {
      ghost var t0, r0 := trace, received;
      ghost var s0 := sent;
      Start();
      Send(AddressByte(address, Write));
      NackedNext(ackScript, s0, 0);
      Send(regAdd);
      NackedNext(ackScript, s0, 1);
      Restart();
      Send(AddressByte(address, Read));
      NackedNext(ackScript, s0, 2);
      AppendFive(t0, Event.Start, Event.Send(AddressByte(address, Write)), Event.Send(regAdd),
                 Event.Restart, Event.Send(AddressByte(address, Read)));
      ghost var th := trace;

      var i := 0;
      while i < length
        invariant 0 <= i && (i == 0 || i < length)
        invariant trace == th + AckedReceives(i)
        invariant received == r0 + i
        invariant sent == s0 + 3 && led == (old(led) && !Nacked(ackScript, s0, 3))
        invariant forall j :: 0 <= j < i ==> data[j] == Nth(rxScript, r0 + j, IdleByte)
        invariant forall j :: i <= j < data.Length ==> data[j] == old(data[j])
      {
        data[i] := Recv();
        if i == length - 1 {
          ReceiveLast(th, i);
          break;
        }
        Ack(AckMore);
        ReceiveMore(th, i);
        i := i + 1;
      }
      assert trace == th + ReceivePhase(length);
      Ack(NackLast);
      Stop();
      AppendClose(t0, ReadHeader(address, regAdd), ReceivePhase(length), Event.Ack(NackLast), Event.Stop);
    }

    /** Write the three IMU configuration registers of the slave at `slave`,
        each in a transaction of its own. */
    method InitImu(slave: Addr7)
      modifies this
      ensures trace == old(trace) + InitTrace(slave)
      ensures received == old(received)
      ensures sent == old(sent) + 9
      ensures led == (old(led) && !Nacked(ackScript, old(sent), 9))
    {
      ghost var t0 := trace;
      ghost var s0 := sent;
      Start();
      Send(AddressByte(slave, Write));
      NackedNext(ackScript, s0, 0);
      Send(Ctrl1Xl);
      NackedNext(ackScript, s0, 1);
      Send(Ctrl1XlValue);
      NackedNext(ackScript, s0, 2);
      Stop();
      AppendFive(t0, Event.Start, Event.Send(AddressByte(slave, Write)), Event.Send(Ctrl1Xl),
                 Event.Send(Ctrl1XlValue), Event.Stop);
      ghost var t1 := trace;

      Start();
      Send(AddressByte(slave, Write));
      NackedNext(ackScript, s0, 3);
      Send(Ctrl2G);
      NackedNext(ackScript, s0, 4);
      Send(Ctrl2GValue);
      NackedNext(ackScript, s0, 5);
      Stop();
      AppendFive(t1, Event.Start, Event.Send(AddressByte(slave, Write)), Event.Send(Ctrl2G),
                 Event.Send(Ctrl2GValue), Event.Stop);
      ghost var t2 := trace;

      Start();
      Send(AddressByte(slave, Write));
      NackedNext(ackScript, s0, 6);
      Send(Ctrl3C);
      NackedNext(ackScript, s0, 7);
      Send(Ctrl3CValue);
      NackedNext(ackScript, s0, 8);
      Stop();
      AppendFive(t2, Event.Start, Event.Send(AddressByte(slave, Write)), Event.Send(Ctrl3C),
                 Event.Send(Ctrl3CValue), Event.Stop);
      AppendThree(t0, WriteTransaction(slave, Ctrl1Xl, Ctrl1XlValue),
                  WriteTransaction(slave, Ctrl2G, Ctrl2GValue), WriteTransaction(slave, Ctrl3C, Ctrl3CValue));
    }

    /** Read one register of the slave at `slave`. The register number is a
        plain `char`, narrowed to a byte when it is transmitted. */
    method GetReg(slave: Addr7, regAdd: CChar) returns (value: Byte)
      modifies this
      ensures trace == old(trace) + ReadTrace(slave, regAdd % 256, 1)
      ensures value == Nth(rxScript, old(received), IdleByte)
      ensures received == old(received) + 1
      ensures sent == old(sent) + 3
      ensures led == (old(led) && !Nacked(ackScript, old(sent), 3))
    {
      ghost var t0 := trace;
      ghost var s0 := sent;
      var reg: Byte := regAdd % 256;
      Start();
      Send(AddressByte(slave, Write));
      NackedNext(ackScript, s0, 0);
      Send(reg);
      NackedNext(ackScript, s0, 1);
      Restart();
      Send(AddressByte(slave, Read));
      NackedNext(ackScript, s0, 2);
      AppendFive(t0, Event.Start, Event.Send(AddressByte(slave, Write)), Event.Send(reg),
                 Event.Restart, Event.Send(AddressByte(slave, Read)));
      ghost var th := trace;
      value := Recv();
      ReceiveLast(th, 0);
      Ack(NackLast);
      Stop();
      AppendClose(t0, ReadHeader(slave, reg), ReceivePhase(1), Event.Ack(NackLast), Event.Stop);
    }
  }
}
