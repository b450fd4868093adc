/**
 * A caller's sequence of public operations, such as the demo loop in main.c
 * performs, and the trace the whole sequence produces.
 */
module Session {
  import opened Bits
  import opened Bus
  import opened Chip
  import Driver
  import Effects

  /** One call of a public operation of the driver. */
  datatype Call =
    | Init
    | SetBrightness(level: nat)
    | DisplayDigit(position: Byte, digit: Byte)
    | DisplayNumber(number: int)
    | ClearDisplay

  /** The trace of one call of a public operation. */
  function CallTrace(c: Call): Trace
  {
    match c
    case Init => Driver.Init()
    case SetBrightness(level) => Driver.SetBrightness(level)
    case DisplayDigit(position, digit) => Driver.DisplayDigit(position, digit)
    case DisplayNumber(number) => Driver.DisplayNumber(number)
    case ClearDisplay => Driver.ClearDisplay()
  }

  /** The traces of the calls, one after another. */
  function SessionTrace(calls: seq<Call>): Trace
  {
    if calls == [] then [] else CallTrace(calls[0]) + SessionTrace(calls[1..])
  }

  /** Each public operation obeys the ordering rule on its own. */
  lemma CallOrdered(c: Call)
    ensures FixedBeforeWrites(CallTrace(c))
  {
    match c
    case Init => Effects.InitOrdered();
    case SetBrightness(level) => Effects.SetBrightnessOrdered(level);
    case DisplayDigit(position, digit) => Effects.DisplayDigitOrdered(position, digit);
    case DisplayNumber(number) => Effects.DisplayNumberOrdered(number);
    case ClearDisplay => Effects.ClearDisplayOrdered();
  }

  /**
   * However the public operations are called, every register write on the bus
   * comes after a fixed-addressing command with no auto-increment command in between.
   */
  lemma {:induction false} SessionOrdered(calls: seq<Call>)
    ensures FixedBeforeWrites(SessionTrace(calls))
  {
    if calls != [] {
      CallOrdered(calls[0]);
      SessionOrdered(calls[1..]);
      OrderedConcat(CallTrace(calls[0]), SessionTrace(calls[1..]));
    }
  }

  /** Consequently every session runs to completion on the chip, whatever state it starts in. */
  lemma SessionRuns(s: State, calls: seq<Call>)
    ensures Run(s, SessionTrace(calls)).Some?
  {
    SessionOrdered(calls);
    OrderedRunsFromAnyState(s, SessionTrace(calls));
  }
}
