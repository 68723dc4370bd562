/**
 The transaction format of the I2C-bus specification (NXP UM10204) as an
 automaton over the master's bus events. It is the reference the driver's
 traces are checked against:
 - section 3.1.4: a transfer opens with START, may change direction with a
   repeated START, and releases the bus with STOP;
 - section 3.1.10: the first byte after a (repeated) START is the slave
   address with the R/W bit, which fixes who transmits next;
 - section 3.1.6: a master-receiver acknowledges every byte it wants to be
   followed by another one and not-acknowledges the last, after which only
   a STOP or a repeated START may follow.
 */
module Protocol {
  import opened BusEvents

  datatype Option<T> = None | Some(value: T)

  /** Where a transaction stands between two bus events. */
  datatype Phase =
    | Idle            // bus free
    | Addressing      // after (repeated) START: the address byte is due
    | Transmitting    // address + W sent: the master sends data bytes
    | Receiving       // address + R sent, or ACK sent: the slave sends a byte
    | Received        // a byte came in: the master owes the acknowledge bit
    | Released        // NACK sent: only STOP or repeated START may follow

  /** The phase after one event, or None when the event is out of order. */
  function Step(p: Phase, e: Event): Option<Phase>
  {
    match (p, e)
    case (Idle, Start) => Some(Addressing)
    case (Addressing, Send(b)) => Some(if b % 2 == Write then Transmitting else Receiving)
    case (Transmitting, Send(_)) => Some(Transmitting)
    case (Transmitting, Restart) => Some(Addressing)
    case (Transmitting, Stop) => Some(Idle)
    case (Receiving, Recv) => Some(Received)
    case (Received, Ack(bit)) => Some(if bit == AckMore then Receiving else Released)
    case (Released, Restart) => Some(Addressing)
    case (Released, Stop) => Some(Idle)
    case _ => None
  }

  /** The phase after a whole trace; None once any event was out of order. */
  function Run(s: Option<Phase>, t: seq<Event>): Option<Phase>
    decreases |t|
  {
    if t == [] || s.None? then s
    else Run(Step(s.value, t[0]), t[1..])
  }

  /** A trace is a sequence of complete, well-formed transactions. */
  predicate Accepts(t: seq<Event>)
  {
    Run(Some(Idle), t) == Some(Idle)
  }

  /** Running a concatenation runs the second part from where the first left off. */
  lemma {:induction false} RunAppend(s: Option<Phase>, a: seq<Event>, b: seq<Event>)
    ensures Run(s, a + b) == Run(Run(s, a), b)
    decreases |a|
  {
    if a == [] {
      assert a + b == b;
    } else if s.None? {
      assert Run(None, b) == None by { RunNone(b); }
    } else {
      assert (a + b)[1..] == a[1..] + b;
      RunAppend(Step(s.value, a[0]), a[1..], b);
    }
  }

  /** Running a non-empty trace takes its first event, then the rest. */
  lemma RunFirst(p: Phase, t: seq<Event>)
    requires t != []
    ensures Run(Some(p), t) == Run(Step(p, t[0]), t[1..])
  {
  }

  /** Once out of order, a trace stays rejected. */
  lemma RunNone(t: seq<Event>)
    ensures Run(None, t) == None
  {
  }

  /** The last event of a trace is taken from the phase the rest left. */
  lemma RunLast(s: Option<Phase>, t: seq<Event>, e: Event)
    ensures Run(s, t + [e]) == if Run(s, t).None? then None else Step(Run(s, t).value, e)
  {
    RunAppend(s, t, [e]);
  }

  /** Transactions that each start and end with the bus free can follow one another. */
  lemma AcceptsConcat(a: seq<Event>, b: seq<Event>)
    requires Accepts(a) && Accepts(b)
    ensures Accepts(a + b)
  {
    RunAppend(Some(Idle), a, b);
  }

  /** Every START is matched by exactly one STOP: a trace run from a free bus
      has one START more than STOPs while a transaction is open, and as many
      once the bus is free again. */
  lemma {:induction false} StartStopBalanced(t: seq<Event>)
    requires Run(Some(Idle), t).Some?
    ensures multiset(t)[Start] == multiset(t)[Stop] + (if Run(Some(Idle), t) == Some(Idle) then 0 else 1)
    decreases |t|
  {
    if t != [] {
      var init, e := t[..|t| - 1], t[|t| - 1];
      assert t == init + [e];
      RunLast(Some(Idle), init, e);
      assert Run(Some(Idle), init).Some? by {
        if Run(Some(Idle), init).None? { RunNone([e]); }
      }
      StartStopBalanced(init);
    }
  }
}
