# Polled I2C master driver

A Dafny model of the polled (interrupt-free) I2C master driver of a PIC32
firmware, `i2c_master_noint.c`. The driver has two layers:

- the bus primitives `i2c_master_start`, `i2c_master_restart`,
  `i2c_master_send`, `i2c_master_recv`, `i2c_master_ack` and
  `i2c_master_stop`, each of which sets a control bit of the I2C2
  peripheral and waits for the hardware to finish;
- the transactions built from them: `I2C_read_multiple`, which reads
  `length` consecutive registers of a slave into a caller's buffer; `initIMU`,
  which writes the IMU's three control registers; and `getReg`, which reads
  one register.

The peripheral is replaced by the class `I2CMaster.Master`. It records every
condition and byte the master puts on the bus as a trace of events (`START`,
repeated `START`, a transmitted byte, a received byte, the acknowledge bit,
`STOP`). It plays the slave's side from two fixed scripts: the bytes it
shifts out on successive receives, and the ACKSTAT it leaves after
successive transmitted bytes. A cursor into each script says how far the bus
has got. It also holds the LED on LATA4, which a transmitted byte that is
not acknowledged switches off. Each primitive is a method that appends one
event. Each transaction is a method whose postcondition gives its whole
trace as a function of its arguments (`Transactions.ReadTrace`,
`Transactions.InitTrace`). It also gives what it stores in the buffer, how
far it moves the slave's scripts and what becomes of the LED.

The traces are checked against an independent reference: the transaction
format of the I2C-bus specification (NXP UM10204, sections 3.1.4, 3.1.6 and
3.1.10), written as the automaton `Protocol.Accepts`. A transfer opens with
START, the first byte after each (repeated) START is the address with the
R/W bit, a master-receiver ACKs every byte but the last, NACKs the last and
then sends STOP or a repeated START. The lemmas in `Transactions` prove the
following about the traces:

- the register writes and the one-register read are accepted;
- a multi-byte read is accepted exactly when `length >= 1`;
- how many conditions, bytes and acknowledge bits each trace holds;
- every received byte is acknowledged at once, by an ACK, or by the NACK
  when it is the last byte.

For `length <= 0`, `I2C_read_multiple` receives nothing. It still sends the
NACK and the STOP straight after the read address, and the bus format does
not allow that (`Transactions.ReadTraceAccepted`).

Widths follow the C types. An `unsigned char` is a `Byte` (0..255). The
address byte `addr << 1 | rw` is narrowed to `unsigned char` on its way into
`i2c_master_send`, so it is `(addr * 2 + rw) % 256`. `ACKDT` is a one-bit
field, so `i2c_master_ack(val)` sends `val % 2`. `getReg` takes a plain
`char`, which may be signed, so its parameter ranges over -128..255 and is
narrowed modulo 256 when it is transmitted. `SLAVE_ADDR` is defined in a
header that is not part of this model, so it is the parameter
`slave: Addr7` (0..127).

Files: `bus_events.dfy` (value types, events, address byte, script
lookup), `protocol.dfy` (the reference automaton), `transactions.dfy`
(the traces of the transactions and their properties), `i2c_master.dfy`
(the `Master` class).

## Model

| member | source | states |
|---|---|---|
| BusEvents.AddressByte | Mike_HW9/firmware/src/i2c_master_noint.c:58-61 | the address byte carries the R/W bit in bit 0 and the low seven bits of the address in bits 7..1, after narrowing to `unsigned char` |
| BusEvents.AddressByteInjective | Mike_HW9/firmware/src/i2c_master_noint.c:30 | for a 7-bit address, the address byte determines both the address and the direction |
| BusEvents.NackedIff | Mike_HW9/firmware/src/i2c_master_noint.c:32-34 | the accumulated NACK test over n transmitted bytes holds exactly when one of their ACKSTAT values is set |
| Protocol.StartStopBalanced | Mike_HW9/firmware/src/i2c_master_noint.c:5 | in any trace run in the order the bus format allows, STARTs and STOPs balance: equal once the bus is free, one more START while a transfer is open |
| Protocol.AcceptsConcat | Mike_HW9/firmware/src/i2c_master_noint.c:78-99 | complete transactions placed back to back form a well-formed trace |
| Transactions.AckedReceivesAt | Mike_HW9/firmware/src/i2c_master_noint.c:62-68 | k non-final loop rounds are 2k events, alternating a receive and an ACK |
| Transactions.AckedReceivesCounts | Mike_HW9/firmware/src/i2c_master_noint.c:62-68 | k non-final loop rounds hold k receives, k ACKs and no NACK, START or STOP |
| Transactions.RunAckedReceives | Mike_HW9/firmware/src/i2c_master_noint.c:62-68 | receive-then-ACK rounds keep a master-receiver in the receiving phase |
| Transactions.ReadTraceFrame | Mike_HW9/firmware/src/i2c_master_noint.c:57-70 | a read opens with START, the write-form address, the register, a repeated START and the read-form address, and closes with NACK then STOP |
| Transactions.ReceivePhaseCounts | Mike_HW9/firmware/src/i2c_master_noint.c:62-68 | the receive loop receives `length` bytes and ACKs one fewer, nothing at all when `length <= 0` |
| Transactions.ReadHeaderCounts | Mike_HW9/firmware/src/i2c_master_noint.c:57-61 | the read header holds one START and one repeated START and no STOP, receive or acknowledge bit |
| Transactions.ReadTraceCounts | Mike_HW9/firmware/src/i2c_master_noint.c:57-70 | a read holds one START, one repeated START and one STOP, `length` receives (none when `length <= 0`), ACKs all but the last byte and sends exactly one NACK |
| Transactions.ReadTraceAckFollowsRecv | Mike_HW9/firmware/src/i2c_master_noint.c:62-69 | every received byte is followed at once by an ACK, or by the NACK when it is the last byte, never by anything else |
| Transactions.RunReadHeader | Mike_HW9/firmware/src/i2c_master_noint.c:57-61 | the read header leaves the master waiting for the slave's first byte |
| Transactions.ReadTraceAccepted | Mike_HW9/firmware/src/i2c_master_noint.c:55-72 | a read is a well-formed I2C transaction if and only if `length >= 1` |
| Transactions.ReadOneTrace | Mike_HW9/firmware/src/i2c_master_noint.c:103-110 | a one-byte read is START, write address, register, repeated START, read address, one receive, NACK, STOP |
| Transactions.WriteTransactionShape | Mike_HW9/firmware/src/i2c_master_noint.c:78-83 | a register write holds one START and one STOP and no repeated START, receive or acknowledge bit |
| Transactions.WriteTransactionAccepted | Mike_HW9/firmware/src/i2c_master_noint.c:78-83 | a register write is a well-formed I2C transaction |
| Transactions.InitTraceShape | Mike_HW9/firmware/src/i2c_master_noint.c:74-100 | the initialisation is 15 events: three well-formed write transactions, three STARTs, three STOPs, no repeated START, receive or acknowledge bit |
| I2CMaster.Master.constructor | Mike_HW9/firmware/src/i2c_master_noint.c:9-16 | a bus on which nothing has happened, with both script cursors at the start |
| I2CMaster.Master.Start | Mike_HW9/firmware/src/i2c_master_noint.c:19-22 | appends one START and changes nothing else |
| I2CMaster.Master.Restart | Mike_HW9/firmware/src/i2c_master_noint.c:24-27 | appends one repeated START and changes nothing else |
| I2CMaster.Master.Send | Mike_HW9/firmware/src/i2c_master_noint.c:29-35 | appends one transmitted byte and consumes one ACKSTAT; a NACK turns the LED off and the call returns normally, an ACK leaves the LED as it was |
| I2CMaster.Master.Recv | Mike_HW9/firmware/src/i2c_master_noint.c:37-41 | appends one receive and returns the next byte of the slave's script (0xFF once it has run out) |
| I2CMaster.Master.Ack | Mike_HW9/firmware/src/i2c_master_noint.c:43-48 | appends one acknowledge bit, the low bit of `val` |
| I2CMaster.Master.Stop | Mike_HW9/firmware/src/i2c_master_noint.c:50-53 | appends one STOP and changes nothing else |
| I2CMaster.Master.ReadMultiple | Mike_HW9/firmware/src/i2c_master_noint.c:55-72 | appends exactly the read trace; `data[i]` is the i-th byte the slave sent for `i < length` and every later entry is unchanged; exactly `max(length, 0)` bytes are consumed; three bytes are transmitted and the LED stays on only if all three were acknowledged |
| I2CMaster.Master.InitImu | Mike_HW9/firmware/src/i2c_master_noint.c:74-100 | appends the three register writes (0x10, 0x82), (0x11, 0x88), (0x12, 0x04) in that order; nothing is received; nine bytes are transmitted and the LED stays on only if all nine were acknowledged |
| I2CMaster.Master.GetReg | Mike_HW9/firmware/src/i2c_master_noint.c:102-113 | appends the same trace as a one-byte multi-register read of the same register, returns the one byte it received and consumes exactly one byte |

## Left out

- `i2c_master_setup`: it writes the baud-rate generator and pin-mux registers and turns the module on; none of that is bus behaviour. The constructor stands in for a freshly enabled peripheral.
- The busy-wait loops on `SEN`, `RSEN`, `TRSTAT`, `RBF`, `ACKEN` and `PEN`: each primitive is modelled as completing at once. Nothing in software bounds those loops.
- Electrical behaviour, clock stretching, arbitration loss, bus errors and pull-ups: they are physical and not decided by the code.
- The slave: it is two fixed scripts. The model does not capture a slave that reacts to what it is sent, such as register auto-increment.
- The meaning of the IMU register values 0x82, 0x88 and 0x04: only the bytes sent are modelled.
- `SLAVE_ADDR` and the header `i2c_master_noint.h` are not part of this model: the slave address is a parameter in 0..127.
- I2CMaster.Master.ReadMultiple: requires `length <= data.Length`; the C code writes past the end of a shorter buffer, which has no defined meaning.
- I2CMaster.Master.Recv: the receive event does not record the byte received; the byte is given by the slave's script and returned.
