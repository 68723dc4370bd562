/**
 The vocabulary of the I2C bus as the master driver sees it: the widths of the
 values it passes around, the conditions and bytes it puts on the bus, the
 address byte of the I2C-bus specification (NXP UM10204, section 3.1.10), and
 the scripts from which the model's slave answers.
 */
module BusEvents {

  /** An `unsigned char`. */
  type Byte = b: int | 0 <= b < 256

  /** A one-bit register field such as ACKDT. */
  type Bit = b: int | 0 <= b < 2

  /** A 7-bit slave address. */
  type Addr7 = a: int | 0 <= a < 128

  /** A plain `char`, whose signedness the C compiler chooses. */
  type CChar = c: int | -128 <= c < 256

  /** R/W bit of an address byte: 0 asks the slave to receive, 1 to transmit. */
  const Write: Bit := 0
  const Read: Bit := 1

  /** ACKDT values: 0 asks the slave for another byte, 1 (NACK) ends the read. */
  const AckMore: Bit := 0
  const NackLast: Bit := 1

  /** A data line nobody drives is pulled high: a receive with no slave
      answering reads all ones. */
  const IdleByte: Byte := 0xFF

  /** One thing the master does on the bus, in the order it does them:
      a START, a repeated START, a transmitted byte, a received byte, the
      acknowledge bit it sends after a received byte, or a STOP. */
  datatype Event = Start | Restart | Send(b: Byte) | Recv | Ack(bit: Bit) | Stop

  /** The first byte after a START: the 7-bit address in bits 7..1 and the
      R/W bit in bit 0, computed as `addr << 1 | rw` and then narrowed to an
      `unsigned char` parameter, so bit 7 of `addr` is lost. */
  function AddressByte(addr: Byte, rw: Bit): (b: Byte)
    ensures b % 2 == rw
    ensures b / 2 == addr % 128
  {
    (addr * 2 + rw) % 256
  }

  /** Two address bytes are equal only for the same 7-bit address and the
      same direction. */
  lemma AddressByteInjective(a1: Addr7, rw1: Bit, a2: Addr7, rw2: Bit)
    requires AddressByte(a1, rw1) == AddressByte(a2, rw2)
    ensures a1 == a2 && rw1 == rw2
  {
  }

  /** The i-th answer of a slave's script, or `idle` once it has run out. */
  function Nth<T>(q: seq<T>, i: nat, idle: T): T
  {
    if i < |q| then q[i] else idle
  }

  /** Some of the n transmitted bytes that start at position `from` of the
      ACKSTAT script q went unacknowledged (true = not acknowledged, the
      default once q has run out, since then no slave pulls the line low). */
  predicate Nacked(q: seq<bool>, from: nat, n: nat)
  {
    n > 0 && (Nacked(q, from, n - 1) || Nth(q, from + n - 1, true))
  }

  /** One more transmitted byte saw a NACK when the earlier ones did or it did. */
  lemma NackedNext(q: seq<bool>, from: nat, n: nat)
    ensures Nacked(q, from, n + 1) == (Nacked(q, from, n) || Nth(q, from + n, true))
  {
  }

  /** Nacked holds exactly when one of those n ACKSTAT values is a NACK. */
  lemma {:induction false} NackedIff(q: seq<bool>, from: nat, n: nat)
    ensures Nacked(q, from, n) <==> exists i :: from <= i < from + n && Nth(q, i, true)
  {
    if n > 0 {
      NackedIff(q, from, n - 1);
      if Nth(q, from + n - 1, true) {
        assert exists i :: from <= i < from + n && Nth(q, i, true);
      }
      if !Nacked(q, from, n) {
        forall i | from <= i < from + n ensures !Nth(q, i, true) {
        }
      }
    }
  }
}
