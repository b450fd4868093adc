/**
 * The bus driver of tm1637.c seen as a producer of abstract bus events.
 *
 * A transaction is the sequence of bytes written between one start condition
 * and the following stop condition; a trace is the sequence of transactions a
 * driver operation puts on the bus.  Each byte goes out as eight data bits,
 * least significant first, followed by one acknowledgement clock.  Lowering a
 * trace to events and parsing events back into a trace are inverse to each other.
 */
module Bus {
  import opened Wrappers
  import opened Bits

  /** The bytes written between one start condition and the next stop condition. */
  type Transaction = seq<Byte>

  /** The transactions an operation puts on the bus, in order. */
  type Trace = seq<Transaction>

  /**
   * Abstract line events: a start condition, one data bit clocked out (true when
   * DIO is released high), the acknowledgement clock after each byte, a stop condition.
   */
  datatype Event = Start | Bit(high: bool) | AckClock | Stop

  /** The eight data bits of a byte in transmission order (least significant first). */
  function ByteBits(b: Byte): (bits: seq<bool>)
    ensures |bits| == 8
  {
    LowBits(b as int, 8)
  }

  /** One Bit event per element of `bits`, in order. */
  function BitEvents(bits: seq<bool>): (evs: seq<Event>)
    ensures |evs| == |bits|
    ensures forall i :: 0 <= i < |bits| ==> evs[i] == Bit(bits[i])
  {
    seq(|bits|, i requires 0 <= i < |bits| => Bit(bits[i]))
  }

  /** The events of one write_byte call: eight data bits, then the acknowledgement clock. */
  function ByteEvents(b: Byte): (evs: seq<Event>)
    ensures |evs| == 9 && evs[8] == AckClock
    ensures forall i :: 0 <= i < 8 ==> evs[i] == Bit(ByteBits(b)[i])
  {
    BitEvents(ByteBits(b)) + [AckClock]
  }

  /** True when the events carry no start or stop condition. */
  predicate Unframed(evs: seq<Event>)
  {
    forall i :: 0 <= i < |evs| ==> evs[i] != Start && evs[i] != Stop
  }

  /** The events of the bytes of one transaction, one byte after another: nine per byte, none of them a start or stop. */
  function BytesEvents(t: Transaction): (evs: seq<Event>)
    ensures |evs| == 9 * |t|
    ensures Unframed(evs)
  {
    if t == [] then [] else ByteEvents(t[0]) + BytesEvents(t[1..])
  }

  /** start, the bytes of the transaction, stop. */
  function TransactionEvents(t: Transaction): (evs: seq<Event>)
    ensures |evs| == 9 * |t| + 2
    ensures evs[0] == Start && evs[|evs| - 1] == Stop
    ensures Unframed(evs[1..|evs| - 1])
  {
    [Start] + BytesEvents(t) + [Stop]
  }

  /** The events of a whole trace, transaction after transaction. */
  function Lower(tr: Trace): (evs: seq<Event>)
    ensures evs == [] <==> tr == []
    ensures tr != [] ==> evs[0] == Start && evs[|evs| - 1] == Stop
  {
    if tr == [] then [] else TransactionEvents(tr[0]) + Lower(tr[1..])
  }

  /** write_command: a transaction carrying exactly one byte. */
  function Command(c: Byte): Trace
  {
    [[c]]
  }

  /** On the wire, write_command is start, the byte's nine events, stop. */
  lemma CommandEvents(c: Byte)
    ensures Lower(Command(c)) == [Start] + ByteEvents(c) + [Stop]
    ensures |Lower(Command(c))| == 11
  {
    assert BytesEvents([c]) == ByteEvents(c) + BytesEvents([]);
  }

  /**
   * write_byte: shifts the byte right one place per bit, sending the low bit
   * each time, then clocks once more for the acknowledgement.  `dioLevel` is the
   * level read on DIO during that clock (an input the model cannot see);
   * the acknowledgement is true exactly when the chip holds DIO low.
   */
  method WriteByte(byte: Byte, dioLevel: bool) returns (events: seq<Event>, ack: bool)
    ensures |events| == 9 && events[8] == AckClock
    ensures forall i :: 0 <= i < 8 ==> events[i] == Bit((byte >> i) & 1 == 1)
    ensures events == ByteEvents(byte)
    ensures ack <==> !dioLevel
  {
    ByteBitsAreShiftedMasks(byte);
    var b := byte;
    events := [];
    var i := 0;
    while i < 8
      invariant 0 <= i <= 8
      invariant b == byte >> i
      invariant events == BitEvents(ByteBits(byte)[..i])
    {
      ShiftStep(byte, i);
      assert ByteBits(byte)[..i + 1] == ByteBits(byte)[..i] + [ByteBits(byte)[i]];
      events := events + [Bit(b & 1 == 1)];
      b := b >> 1;
      i := i + 1;
    }
    assert ByteBits(byte)[..8] == ByteBits(byte);
    events := events + [AckClock];
    ack := !dioLevel;
  }

  /** Bit i of a byte's transmission is (byte >> i) & 1. */
  lemma ByteBitsAreShiftedMasks(b: Byte)
    ensures forall i :: 0 <= i < 8 ==> ByteBits(b)[i] == ((b >> i) & 1 == 1)
  {
    forall i | 0 <= i < 8
      ensures ByteBits(b)[i] == ((b >> i) & 1 == 1)
    {
      LowBitsAreShiftedMasks(b, 8, i);
    }
  }

  /**
   * write_command: start, write_byte, stop.  The acknowledgement write_byte
   * reports is dropped, as the driver drops it.
   */
  method WriteCommand(c: Byte, dioLevel: bool) returns (events: seq<Event>)
    ensures events == Lower(Command(c))
    ensures Parse(events) == Some([[c]])
  {
    var byteEvents, ack := WriteByte(c, dioLevel);
    events := [Start] + byteEvents + [Stop];
    CommandEvents(c);
    ParseLower(Command(c));
  }

  /** 0x3F goes out as the bits 1, 1, 1, 1, 1, 1, 0, 0. */
  lemma ByteBitsExample()
    ensures ByteBits(0x3F) == [true, true, true, true, true, true, false, false]
  {
    assert LowBits(0, 2) == [false, false] by {
      assert LowBits(0, 0) == [];
    }
    assert LowBits(1, 3) == [true, false, false];
    assert LowBits(3, 4) == [true, true, false, false];
    assert LowBits(7, 5) == [true, true, true, false, false];
    assert LowBits(15, 6) == [true, true, true, true, false, false];
    assert LowBits(31, 7) == [true, true, true, true, true, false, false];
  }

  /** True when every event is a data bit. */
  predicate AllBits(evs: seq<Event>)
  {
    forall i :: 0 <= i < |evs| ==> evs[i].Bit?
  }

  /** The levels carried by a run of data-bit events. */
  function LevelsOf(evs: seq<Event>): (bits: seq<bool>)
    requires AllBits(evs)
    ensures |bits| == |evs|
    ensures BitEvents(bits) == evs
  {
    seq(|evs|, i requires 0 <= i < |evs| => evs[i].high)
  }

  /**
   * Reads the bytes of one transaction up to and including its stop
   * condition; answers the bytes and the events after the stop.
   */
  function ParseBody(evs: seq<Event>): (r: Option<(Transaction, seq<Event>)>)
    ensures r.Some? ==> |r.value.1| < |evs|
    decreases |evs|
  {
    if |evs| == 0 then None
    else if evs[0] == Stop then Some(([], evs[1..]))
    else if |evs| >= 9 && AllBits(evs[..8]) && evs[8] == AckClock then
      var b := ByteOfBits(LevelsOf(evs[..8]));
      match ParseBody(evs[9..])
      case None => None
      case Some((t, rest)) => Some(([b] + t, rest))
    else None
  }

  /** Recovers the trace from a stream of events; None when the stream is not well framed. */
  function Parse(evs: seq<Event>): (r: Option<Trace>)
    decreases |evs|
  {
    if evs == [] then Some([])
    else if evs[0] != Start then None
    else
      match ParseBody(evs[1..])
      case None => None
      case Some((t, rest)) =>
        match Parse(rest)
        case None => None
        case Some(tr) => Some([t] + tr)
  }

  /** The eight bits of a byte read back as a number are the byte. */
  lemma WeightOfByteBits(b: Byte)
    ensures Weight(ByteBits(b)) == b as int
  {
    assert Pow2(8) == 256;
    WeightOfLowBits(b as int, 8);
  }

  /** The events of a byte followed by anything: nine events that parse back to the byte, then the rest. */
  lemma ByteEventsThen(b: Byte, tail: seq<Event>)
    ensures var evs := ByteEvents(b) + tail;
      && |evs| >= 9 && evs[0] != Stop && AllBits(evs[..8]) && evs[8] == AckClock
      && ByteOfBits(LevelsOf(evs[..8])) == b
      && evs[9..] == tail
  {
    var evs := ByteEvents(b) + tail;
    assert evs[..8] == BitEvents(ByteBits(b));
    assert LevelsOf(evs[..8]) == ByteBits(b);
    ByteOfByteBits(b);
  }

  /** The bytes of a transaction followed by its stop parse back to those bytes, leaving what follows. */
  lemma {:induction false} ParseBodyOfBytes(t: Transaction, rest: seq<Event>)
    ensures ParseBody(BytesEvents(t) + [Stop] + rest) == Some((t, rest))
  {
    if t == [] {
      assert BytesEvents(t) + [Stop] + rest == [Stop] + rest;
    } else {
      var tail := BytesEvents(t[1..]) + [Stop] + rest;
      assert BytesEvents(t) + [Stop] + rest == ByteEvents(t[0]) + tail;
      ByteEventsThen(t[0], tail);
      ParseBodyOfBytes(t[1..], rest);
      assert [t[0]] + t[1..] == t;
    }
  }

  /** The events of a non-empty trace: its first transaction's framed bytes, then the rest. */
  lemma LowerCons(tr: Trace)
    requires tr != []
    ensures Lower(tr) == [Start] + (BytesEvents(tr[0]) + [Stop] + Lower(tr[1..]))
  {
    assert TransactionEvents(tr[0]) + Lower(tr[1..]) == [Start] + (BytesEvents(tr[0]) + [Stop] + Lower(tr[1..]));
  }

  /** Parsing the events of a trace gives the trace back. */
  lemma {:induction false} ParseLower(tr: Trace)
    ensures Parse(Lower(tr)) == Some(tr)
  {
    if tr != [] {
      var body := BytesEvents(tr[0]) + [Stop] + Lower(tr[1..]);
      LowerCons(tr);
      assert Lower(tr)[1..] == body;
      ParseBodyOfBytes(tr[0], Lower(tr[1..]));
      ParseLower(tr[1..]);
      assert [tr[0]] + tr[1..] == tr;
    }
  }

  /** Assembling the eight bits sent for a byte gives the byte back. */
  lemma ByteOfByteBits(b: Byte)
    ensures ByteOfBits(ByteBits(b)) == b
  {
    WeightOfByteBits(b);
    ByteValueInjective(ByteOfBits(ByteBits(b)), b);
  }

  /** Eight bit levels assembled into a byte serialise to the same eight levels. */
  lemma ByteBitsOfByte(bits: seq<bool>)
    requires |bits| == 8
    ensures ByteBits(ByteOfBits(bits)) == bits
  {
    LowBitsOfWeight(bits);
  }

  /** Eight received bit levels, assembled into a byte and sent again, give the same events. */
  lemma ByteEventsOfLevels(bits: seq<bool>)
    requires |bits| == 8
    ensures ByteEvents(ByteOfBits(bits)) == BitEvents(bits) + [AckClock]
  {
    ByteBitsOfByte(bits);
  }

  /** Whatever ParseBody accepts is the events of the bytes it answers, a stop, then the rest. */
  lemma {:induction false} BytesOfParseBody(evs: seq<Event>)
    requires ParseBody(evs).Some?
    ensures evs == BytesEvents(ParseBody(evs).value.0) + [Stop] + ParseBody(evs).value.1
    decreases |evs|
  {
    if evs[0] != Stop {
      var head, tail := evs[..8], evs[9..];
      var bits := LevelsOf(head);
      ByteEventsOfLevels(bits);
      var b := ByteOfBits(bits);
      BytesOfParseBody(tail);
      var t, rest := ParseBody(tail).value.0, ParseBody(tail).value.1;
      assert ParseBody(evs).value == ([b] + t, rest);
      assert ([b] + t)[1..] == t;
      assert BytesEvents([b] + t) == ByteEvents(b) + BytesEvents(t);
      assert evs == head + [evs[8]] + tail;
    }
  }

  /** Every well-framed event stream is exactly the lowering of the trace it parses to. */
  lemma {:induction false} LowerParse(evs: seq<Event>)
    requires Parse(evs).Some?
    ensures Lower(Parse(evs).value) == evs
    decreases |evs|
  {
    if evs != [] {
      BytesOfParseBody(evs[1..]);
      var (t, rest) := ParseBody(evs[1..]).value;
      LowerParse(rest);
      var tr := [t] + Parse(rest).value;
      assert tr[0] == t && tr[1..] == Parse(rest).value;
      LowerCons(tr);
      assert evs == [evs[0]] + evs[1..];
    }
  }
}
