/**
 The bus traces of the driver's transactions, and what they are promised to
 look like: how many conditions, bytes and acknowledge bits each one holds,
 where the NACK falls, and whether the transaction format of the I2C-bus
 specification (the `Protocol` automaton) accepts it.
 */
module Transactions {
  import opened BusEvents
  import opened Protocol

  // IMU configuration registers and the values the driver writes to them.
  const Ctrl1Xl: Byte := 0x10   // accelerometer control
  const Ctrl2G: Byte := 0x11    // gyroscope control
  const Ctrl3C: Byte := 0x12    // common control (register auto-increment)
  const Ctrl1XlValue: Byte := 0x82
  const Ctrl2GValue: Byte := 0x88
  const Ctrl3CValue: Byte := 0x04

  /** Number of bytes a read of `length` bytes takes from the slave. */
  function ReceiveCount(length: int): nat
  {
    if length > 0 then length else 0
  }

  /** k receive rounds, each asking the slave for one more byte. */
  function AckedReceives(k: nat): seq<Event>
  {
    if k == 0 then [] else AckedReceives(k - 1) + [Recv, Ack(AckMore)]
  }

  /** The receive phase of a read of `length` bytes: every byte but the last
      is acknowledged; the last one is left for the NACK that follows. */
  function ReceivePhase(length: int): seq<Event>
  {
    if length <= 0 then [] else AckedReceives(length - 1) + [Recv]
  }

  /** Address the slave for writing, name the register, then turn the bus
      round with a repeated START and address the slave for reading. */
  function ReadHeader(address: Byte, regAdd: Byte): seq<Event>
  {
    [Start, Send(AddressByte(address, Write)), Send(regAdd), Restart, Send(AddressByte(address, Read))]
  }

  /** Everything a read of `length` bytes puts on the bus. */
  function ReadTrace(address: Byte, regAdd: Byte, length: int): seq<Event>
  {
    ReadHeader(address, regAdd) + ReceivePhase(length) + [Ack(NackLast), Stop]
  }

  /** One register write: address for writing, register, value, STOP. */
  function WriteTransaction(slave: Addr7, reg: Byte, value: Byte): seq<Event>
  {
    [Start, Send(AddressByte(slave, Write)), Send(reg), Send(value), Stop]
  }

  /** Everything the IMU initialisation puts on the bus. */
  function InitTrace(slave: Addr7): seq<Event>
  {
    WriteTransaction(slave, Ctrl1Xl, Ctrl1XlValue)
    + WriteTransaction(slave, Ctrl2G, Ctrl2GValue)
    + WriteTransaction(slave, Ctrl3C, Ctrl3CValue)
  }

  // ---------------------------------------------------------------------
  // The receive rounds

  /** The receive rounds alternate a received byte and an ACK. */
  lemma {:induction false} AckedReceivesAt(k: nat, j: nat)
    requires j < 2 * k
    ensures |AckedReceives(k)| == 2 * k
    ensures AckedReceives(k)[j] == if j % 2 == 0 then Recv else Ack(AckMore)
  {
    AckedReceivesLength(k);
    if j < 2 * (k - 1) {
      AckedReceivesAt(k - 1, j);
    }
  }

  /** k receive rounds are 2k events long. */
  lemma {:induction false} AckedReceivesLength(k: nat)
    ensures |AckedReceives(k)| == 2 * k
  {
    if k > 0 {
      AckedReceivesLength(k - 1);
    }
  }

  /** k receive rounds hold k received bytes, k ACKs, and no NACK, START or STOP. */
  lemma {:induction false} AckedReceivesCounts(k: nat)
    ensures multiset(AckedReceives(k))[Recv] == k
    ensures multiset(AckedReceives(k))[Ack(AckMore)] == k
    ensures var m := multiset(AckedReceives(k));
      m[Ack(NackLast)] == 0 && m[Start] == 0 && m[Restart] == 0 && m[Stop] == 0
  {
    if k > 0 {
      AckedReceivesCounts(k - 1);
      assert multiset(AckedReceives(k)) == multiset(AckedReceives(k - 1)) + multiset{Recv, Ack(AckMore)};
    }
  }

  /** Receive rounds leave a receiving master receiving. */
  lemma {:induction false} RunAckedReceives(k: nat)
    ensures Run(Some(Receiving), AckedReceives(k)) == Some(Receiving)
  {
    if k > 0 {
      RunAckedReceives(k - 1);
      RunAppend(Some(Receiving), AckedReceives(k - 1), [Recv, Ack(AckMore)]);
      RunFirst(Receiving, [Recv, Ack(AckMore)]);
      RunFirst(Received, [Ack(AckMore)]);
    }
  }

  // ---------------------------------------------------------------------
  // Reads

  /** A read opens with one START, the address byte in write form, the
      register number, one repeated START and the address byte in read form,
      and closes with one NACK and one STOP. */
  lemma ReadTraceFrame(address: Byte, regAdd: Byte, length: int)
    ensures var t := ReadTrace(address, regAdd, length);
      && |t| >= 7
      && t[0] == Start && t[3] == Restart
      && t[1].Send? && t[1].b % 2 == Write && t[1].b / 2 == address % 128
      && t[2] == Send(regAdd)
      && t[4].Send? && t[4].b % 2 == Read && t[4].b / 2 == address % 128
      && t[|t| - 2] == Ack(NackLast) && t[|t| - 1] == Stop
  {
  }

  /** The receive phase holds `length` received bytes and one ACK fewer
      (nothing at all when `length <= 0`), and no NACK, START or STOP. */
  lemma ReceivePhaseCounts(length: int)
    ensures var m := multiset(ReceivePhase(length));
      var n := ReceiveCount(length);
      && m[Recv] == n
      && m[Ack(AckMore)] == (if n > 0 then n - 1 else 0)
      && m[Ack(NackLast)] == 0 && m[Start] == 0 && m[Restart] == 0 && m[Stop] == 0
  {
    if length > 0 {
      AckedReceivesCounts(length - 1);
      assert multiset(ReceivePhase(length)) == multiset(AckedReceives(length - 1)) + multiset{Recv};
    }
  }

  /** The header of a read holds one START and one repeated START, and no
      STOP, receive or acknowledge bit. */
  lemma ReadHeaderCounts(address: Byte, regAdd: Byte)
    ensures var m := multiset(ReadHeader(address, regAdd));
      && m[Start] == 1 && m[Restart] == 1 && m[Stop] == 0
      && m[Recv] == 0 && m[Ack(AckMore)] == 0 && m[Ack(NackLast)] == 0
  {
  }

  /** A read of `length` bytes holds one START, one repeated START and one
      STOP; it receives `length` bytes (none when `length <= 0`), ACKs all
      but the last and sends exactly one NACK. */
  lemma ReadTraceCounts(address: Byte, regAdd: Byte, length: int)
    ensures var m := multiset(ReadTrace(address, regAdd, length));
      var n := ReceiveCount(length);
      && m[Start] == 1 && m[Restart] == 1 && m[Stop] == 1
      && m[Recv] == n
      && m[Ack(AckMore)] == (if n > 0 then n - 1 else 0)
      && m[Ack(NackLast)] == 1
  {
    ReadHeaderCounts(address, regAdd);
    ReceivePhaseCounts(length);
    assert multiset(ReadTrace(address, regAdd, length))
        == multiset(ReadHeader(address, regAdd)) + multiset(ReceivePhase(length)) + multiset{Ack(NackLast), Stop};
  }

  /** Every received byte is acknowledged at once: by an ACK, or by the NACK
      when it is the last byte of the read. */
  lemma ReadTraceAckFollowsRecv(address: Byte, regAdd: Byte, length: int, j: nat)
    requires j < |ReadTrace(address, regAdd, length)|
    requires ReadTrace(address, regAdd, length)[j] == Recv
    ensures var t := ReadTrace(address, regAdd, length);
      j + 1 < |t| && t[j + 1] == if j + 1 == |t| - 2 then Ack(NackLast) else Ack(AckMore)
  {
    var t := ReadTrace(address, regAdd, length);
    var p := ReceivePhase(length);
    assert t == ReadHeader(address, regAdd) + p + [Ack(NackLast), Stop];
    assert 5 <= j < 5 + |p|;
    var k := length - 1;
    AckedReceivesLength(k);
    assert p == AckedReceives(k) + [Recv];
    if j - 5 < 2 * k {
      AckedReceivesAt(k, j - 5);
      assert (j - 5) % 2 == 0;
      AckedReceivesAt(k, j - 4);
    }
  }

  /** The header of a read leaves the master waiting for the slave's first byte. */
  lemma RunReadHeader(address: Byte, regAdd: Byte)
    ensures Run(Some(Idle), ReadHeader(address, regAdd)) == Some(Receiving)
  {
    var h := ReadHeader(address, regAdd);
    RunFirst(Idle, h);
    RunFirst(Addressing, h[1..]);
    RunFirst(Transmitting, h[2..]);
    RunFirst(Transmitting, h[3..]);
    RunFirst(Addressing, h[4..]);
    assert h[1..][1..] == h[2..] && h[2..][1..] == h[3..] && h[3..][1..] == h[4..] && h[4..][1..] == [];
  }

  /** A read is a well-formed I2C transaction exactly when it receives at
      least one byte: with `length <= 0` the NACK follows the read address
      with no byte received, which the transaction format does not allow. */
  lemma ReadTraceAccepted(address: Byte, regAdd: Byte, length: int)
    ensures Accepts(ReadTrace(address, regAdd, length)) <==> length >= 1
  {
    var h := ReadHeader(address, regAdd);
    var p := ReceivePhase(length);
    var tail := [Ack(NackLast), Stop];
    RunAppend(Some(Idle), h + p, tail);
    RunAppend(Some(Idle), h, p);
    RunReadHeader(address, regAdd);
    if length >= 1 {
      RunAckedReceives(length - 1);
      RunAppend(Some(Receiving), AckedReceives(length - 1), [Recv]);
      RunFirst(Received, tail);
      RunFirst(Released, tail[1..]);
    } else {
      assert p == [];
      assert Run(Some(Receiving), tail) == None;
    }
  }

  /** A one-byte read is the eight events of a single-register read. */
  lemma ReadOneTrace(address: Byte, regAdd: Byte)
    ensures ReadTrace(address, regAdd, 1)
         == [Start, Send(AddressByte(address, Write)), Send(regAdd), Restart,
             Send(AddressByte(address, Read)), Recv, Ack(NackLast), Stop]
  {
  }

  // ---------------------------------------------------------------------
  // IMU initialisation

  /** A register write holds one START and one STOP, and never a repeated
      START, a receive or an acknowledge bit. */
  lemma WriteTransactionShape(slave: Addr7, reg: Byte, value: Byte)
    ensures var w := WriteTransaction(slave, reg, value);
      && multiset(w)[Start] == 1 && multiset(w)[Stop] == 1
      && (forall e :: e in w ==> !e.Restart? && !e.Recv? && !e.Ack?)
  {
  }

  /** A register write is a well-formed I2C transaction. */
  lemma WriteTransactionAccepted(slave: Addr7, reg: Byte, value: Byte)
    ensures Accepts(WriteTransaction(slave, reg, value))
  {
    var t := WriteTransaction(slave, reg, value);
    RunFirst(Idle, t);
    RunFirst(Addressing, t[1..]);
    RunFirst(Transmitting, t[2..]);
    RunFirst(Transmitting, t[3..]);
    RunFirst(Transmitting, t[4..]);
    assert t[1..][1..] == t[2..] && t[2..][1..] == t[3..] && t[3..][1..] == t[4..] && t[4..][1..] == [];
  }

  /** The initialisation is three well-formed write transactions: three
      STARTs and three STOPs, and never a repeated START, a receive or an
      acknowledge bit. */
  lemma InitTraceShape(slave: Addr7)
    ensures var t := InitTrace(slave);
      && |t| == 15
      && multiset(t)[Start] == 3 && multiset(t)[Stop] == 3
      && (forall e :: e in t ==> !e.Restart? && !e.Recv? && !e.Ack?)
      && Accepts(t)
  {
    var w1 := WriteTransaction(slave, Ctrl1Xl, Ctrl1XlValue);
    var w2 := WriteTransaction(slave, Ctrl2G, Ctrl2GValue);
    var w3 := WriteTransaction(slave, Ctrl3C, Ctrl3CValue);
    WriteTransactionShape(slave, Ctrl1Xl, Ctrl1XlValue);
    WriteTransactionShape(slave, Ctrl2G, Ctrl2GValue);
    WriteTransactionShape(slave, Ctrl3C, Ctrl3CValue);
    WriteTransactionAccepted(slave, Ctrl1Xl, Ctrl1XlValue);
    WriteTransactionAccepted(slave, Ctrl2G, Ctrl2GValue);
    WriteTransactionAccepted(slave, Ctrl3C, Ctrl3CValue);
    AcceptsConcat(w1, w2);
    AcceptsConcat(w1 + w2, w3);
    assert InitTrace(slave) == w1 + w2 + w3;
    assert multiset(w1 + w2 + w3) == multiset(w1) + multiset(w2) + multiset(w3);
    forall e: Event | e in w1 + w2 + w3 ensures !e.Restart? && !e.Recv? && !e.Ack? {
      assert e in w1 || e in w2 || e in w3;
    }
  }
}
