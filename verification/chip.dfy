/**
 * A reference reading of the command bytes the driver sends, used to state
 * what each operation does to the display rather than which bytes it sends.
 * It is a modelling choice, not code of the driver: the header only names the
 * four command values.
 *
 * The chip keeps an addressing mode (set by the data commands 0x40 and 0x44),
 * four digit registers (written by an address byte 0xC0..0xC3 followed by one
 * data byte), and a display-control setting.  The control-byte layout
 * (0x80..0x8F, bit 3 switching the display on, bits 0..2 the brightness) is
 * the TM1637's documented command format; the header gives only 0x88.
 *
 * A register write while fixed addressing is not in force makes the run fail.
 * A real chip would simply store the byte; the failure encodes, and so lets
 * the model check, the driver's own discipline of sending 0x44 before every
 * single-address write.
 */
module Chip {
  import opened Wrappers
  import opened Bits
  import opened Bus
  import opened Commands
  import opened Decimal

  datatype Mode = AutoIncrement | FixedAddress

  /** The four digit registers, position 0 first. */
  type Grid = g: seq<Byte> | |g| == 4 witness [0, 0, 0, 0]

  datatype State = State(mode: Option<Mode>, grid: Grid, lit: bool, brightness: nat)

  /** A data command selecting an addressing mode. */
  predicate IsModeCommand(t: Transaction)
  {
    t == [DataFixed] || t == [DataAuto]
  }

  /** The addressing mode a data command selects. */
  function ModeOf(t: Transaction): Mode
    requires IsModeCommand(t)
  {
    if t == [DataFixed] then FixedAddress else AutoIncrement
  }

  /** A display-control command. */
  predicate IsControlCommand(t: Transaction)
  {
    |t| == 1 && t[0] & 0xF0 == 0x80
  }

  /** An address byte for one of the four positions followed by one data byte. */
  predicate IsDigitWrite(t: Transaction)
  {
    |t| == 2 && AddrStart <= t[0] < AddrStart + 4
  }

  /**
   * The three kinds of transaction the driver sends are told apart: [0x44] is
   * only a mode command; [0x88 | b] for a level b <= 7 is only a display-control
   * command, switching the display on at level b; [0xC0 + p, x] for a position
   * p <= 3 is only a write of register p.
   */
  lemma CommandKinds(b: Byte, p: Byte, x: Byte)
    requires b <= 7 && p <= 3
    ensures IsModeCommand([DataFixed]) && !IsControlCommand([DataFixed]) && !IsDigitWrite([DataFixed])
    ensures var c: Transaction := [DisplayCtrl | b];
      && IsControlCommand(c) && !IsModeCommand(c) && !IsDigitWrite(c)
      && c[0] & 0x08 != 0 && c[0] & 0x07 == b
    ensures var w: Transaction := [AddrStart + p, x];
      && IsDigitWrite(w) && !IsModeCommand(w) && !IsControlCommand(w)
      && w[0] - AddrStart == p
  {
  }

  /** The effect of one transaction; None when a register write arrives outside fixed addressing. */
  function Step(s: State, t: Transaction): Option<State>
  {
    if IsModeCommand(t) then Some(s.(mode := Some(ModeOf(t))))
    else if IsControlCommand(t) then Some(s.(lit := t[0] & 0x08 != 0, brightness := (t[0] & 0x07) as nat))
    else if IsDigitWrite(t) then
      if s.mode == Some(FixedAddress) then Some(s.(grid := s.grid[(t[0] - AddrStart) as int := t[1]]))
      else None
    else Some(s)
  }

  /** The effect of a whole trace, transaction by transaction. */
  function Run(s: State, tr: Trace): Option<State>
    decreases |tr|
  {
    if tr == [] then Some(s)
    else match Step(s, tr[0])
      case None => None
      case Some(s') => Run(s', tr[1..])
  }

  /** The addressing mode in force after `tr`, starting from `m`: the one the last data command chose. */
  function ModeAfter(m: Option<Mode>, tr: Trace): Option<Mode>
  {
    if tr == [] then m
    else if IsModeCommand(tr[|tr| - 1]) then Some(ModeOf(tr[|tr| - 1]))
    else ModeAfter(m, tr[..|tr| - 1])
  }

  /** Every register write in `tr` happens while fixed addressing is in force, starting from `m`. */
  predicate WritesInFixedMode(m: Option<Mode>, tr: Trace)
  {
    forall j :: 0 <= j < |tr| && IsDigitWrite(tr[j]) ==> ModeAfter(m, tr[..j]) == Some(FixedAddress)
  }

  /**
   * The ordering rule: within the trace itself, a fixed-addressing command
   * precedes every register write, with no auto-increment command in between.
   */
  predicate FixedBeforeWrites(tr: Trace)
  {
    WritesInFixedMode(None, tr)
  }

  /** True when every register holds the pattern of a decimal digit. */
  predicate ShowsDigits(g: Grid)
  {
    forall i :: 0 <= i < 4 ==> DigitOfPattern(g[i]).Some?
  }

  /** The digit each register shows, position 0 first. */
  function ShownDigits(g: Grid): (ds: seq<nat>)
    requires ShowsDigits(g)
    ensures |ds| == 4 && AllDigits(ds)
    ensures forall i :: 0 <= i < 4 ==> SegmentPatterns[ds[i]] == g[i]
  {
    seq(4, i requires 0 <= i < 4 => DigitOfPattern(g[i]).value)
  }

  /** The number the registers show, or None if some register is not a digit pattern. */
  function Reading(g: Grid): (r: Option<nat>)
    ensures r.Some? <==> ShowsDigits(g)
    ensures r.Some? ==> r.value <= 9999
  {
    if ShowsDigits(g) then
      var ds := ShownDigits(g);
      FourDigitValue(ds);
      Some(Value(ds))
    else None
  }

  /** The registers showing each digit of `number` (0..9999), most significant at position 0. */
  function Rendered(number: nat): Grid
    requires number <= 9999
  {
    var ds := Digits(number, 4);
    seq(4, i requires 0 <= i < 4 => SegmentPatterns[ds[i]])
  }

  const BlankGrid: Grid := [Blank, Blank, Blank, Blank]

  // ---------------------------------------------------------------------------
  // Modes and ordering

  /** The mode after A + B is the mode after B, starting from the mode after A. */
  lemma {:induction false} ModeAfterConcat(m: Option<Mode>, a: Trace, b: Trace)
    ensures ModeAfter(m, a + b) == ModeAfter(ModeAfter(m, a), b)
    decreases |b|
  {
    if b != [] {
      var ab := a + b;
      assert ab[|ab| - 1] == b[|b| - 1];
      assert ab[..|ab| - 1] == a + b[..|b| - 1];
      ModeAfterConcat(m, a, b[..|b| - 1]);
    } else {
      assert a + b == a;
    }
  }

  /** A mode command inside the trace overrides the starting mode. */
  lemma {:induction false} ModeAfterStart(m: Option<Mode>, tr: Trace)
    ensures ModeAfter(m, tr) == if ModeAfter(None, tr).Some? then ModeAfter(None, tr) else m
    decreases |tr|
  {
    if tr != [] && !IsModeCommand(tr[|tr| - 1]) {
      ModeAfterStart(m, tr[..|tr| - 1]);
    }
  }

  /** Running a trace leaves the chip in the mode the trace's last data command chose. */
  lemma {:induction false} RunMode(s: State, tr: Trace)
    requires Run(s, tr).Some?
    ensures Run(s, tr).value.mode == ModeAfter(s.mode, tr)
    decreases |tr|
  {
    if tr != [] {
      var s' := Step(s, tr[0]).value;
      RunMode(s', tr[1..]);
      assert tr == [tr[0]] + tr[1..];
      ModeAfterConcat(s.mode, [tr[0]], tr[1..]);
      assert ModeAfter(s.mode, [tr[0]]) == s'.mode by {
        assert [tr[0]][..0] == [];
      }
    }
  }

  /** The ordering condition for [t] + rest splits into one for t and one for rest. */
  lemma WritesInFixedModeCons(m: Option<Mode>, t: Transaction, rest: Trace)
    ensures WritesInFixedMode(m, [t] + rest) <==>
      && (IsDigitWrite(t) ==> m == Some(FixedAddress))
      && WritesInFixedMode(ModeAfter(m, [t]), rest)
  {
    var tr := [t] + rest;
    assert tr[..0] == [];
    forall j | 0 <= j < |rest|
      ensures tr[j + 1] == rest[j]
      ensures ModeAfter(m, tr[..j + 1]) == ModeAfter(ModeAfter(m, [t]), rest[..j])
    {
      assert tr[..j + 1] == [t] + rest[..j];
      ModeAfterConcat(m, [t], rest[..j]);
    }
    if WritesInFixedMode(ModeAfter(m, [t]), rest) && (IsDigitWrite(t) ==> m == Some(FixedAddress)) {
      forall j | 0 <= j < |tr| && IsDigitWrite(tr[j])
        ensures ModeAfter(m, tr[..j]) == Some(FixedAddress)
      {
        if j > 0 {
          assert IsDigitWrite(rest[j - 1]);
        }
      }
    }
    if WritesInFixedMode(m, tr) {
      forall j | 0 <= j < |rest| && IsDigitWrite(rest[j])
        ensures ModeAfter(ModeAfter(m, [t]), rest[..j]) == Some(FixedAddress)
      {
        assert IsDigitWrite(tr[j + 1]);
      }
      if IsDigitWrite(t) {
        assert IsDigitWrite(tr[0]);
      }
    }
  }

  /** A run fails exactly when some register write arrives outside fixed addressing. */
  lemma {:induction false} RunDefinedIff(s: State, tr: Trace)
    ensures Run(s, tr).Some? <==> WritesInFixedMode(s.mode, tr)
    decreases |tr|
  {
    if tr != [] {
      var t, rest := tr[0], tr[1..];
      assert tr == [t] + rest;
      WritesInFixedModeCons(s.mode, t, rest);
      assert [t][..0] == [];
      match Step(s, t)
      case None =>
      case Some(s') =>
        assert s'.mode == ModeAfter(s.mode, [t]);
        RunDefinedIff(s', rest);
    }
  }

  /** A trace that obeys the ordering rule runs to completion from any chip state. */
  lemma OrderedRunsFromAnyState(s: State, tr: Trace)
    requires FixedBeforeWrites(tr)
    ensures Run(s, tr).Some?
  {
    forall j | 0 <= j < |tr| && IsDigitWrite(tr[j])
      ensures ModeAfter(s.mode, tr[..j]) == Some(FixedAddress)
    {
      ModeAfterStart(s.mode, tr[..j]);
    }
    RunDefinedIff(s, tr);
  }

  /** From a chip not already in fixed addressing, a trace runs to completion only if it obeys the ordering rule. */
  lemma RunsOnlyIfOrdered(s: State, tr: Trace)
    requires s.mode != Some(FixedAddress)
    requires Run(s, tr).Some?
    ensures FixedBeforeWrites(tr)
  {
    RunDefinedIff(s, tr);
    forall j | 0 <= j < |tr| && IsDigitWrite(tr[j])
      ensures ModeAfter(None, tr[..j]) == Some(FixedAddress)
    {
      ModeAfterStart(s.mode, tr[..j]);
    }
  }

  /** Traces obeying the ordering rule stay obeying it when one follows another. */
  lemma OrderedConcat(a: Trace, b: Trace)
    requires FixedBeforeWrites(a) && FixedBeforeWrites(b)
    ensures FixedBeforeWrites(a + b)
  {
    var ab := a + b;
    forall j | 0 <= j < |ab| && IsDigitWrite(ab[j])
      ensures ModeAfter(None, ab[..j]) == Some(FixedAddress)
    {
      if j < |a| {
        assert ab[..j] == a[..j];
        assert ab[j] == a[j];
      } else {
        var k := j - |a|;
        assert ab[j] == b[k];
        assert ab[..j] == a + b[..k];
        ModeAfterConcat(None, a, b[..k]);
        ModeAfterStart(ModeAfter(None, a), b[..k]);
      }
    }
  }

  /** A trace that opens with the fixed-addressing command and never changes mode again obeys the rule. */
  lemma {:induction false} FixedFirstIsOrdered(tr: Trace)
    requires |tr| >= 1 && tr[0] == [DataFixed]
    requires forall k :: 1 <= k < |tr| ==> !IsModeCommand(tr[k])
    ensures forall j :: 1 <= j <= |tr| ==> ModeAfter(None, tr[..j]) == Some(FixedAddress)
    ensures FixedBeforeWrites(tr)
  {
    forall j | 1 <= j <= |tr|
      ensures ModeAfter(None, tr[..j]) == Some(FixedAddress)
    {
      FixedPrefix(tr, j);
    }
    assert !IsDigitWrite(tr[0]);
  }

  /** In a trace that opens with 0x44 and never changes mode again, every non-empty prefix leaves fixed addressing in force. */
  lemma {:induction false} FixedPrefix(tr: Trace, j: nat)
    requires 1 <= j <= |tr| && tr[0] == [DataFixed]
    requires forall k :: 1 <= k < |tr| ==> !IsModeCommand(tr[k])
    ensures ModeAfter(None, tr[..j]) == Some(FixedAddress)
    decreases j
  {
    var p := tr[..j];
    assert p[|p| - 1] == tr[j - 1];
    if j > 1 {
      assert p[..|p| - 1] == tr[..j - 1];
      FixedPrefix(tr, j - 1);
    }
  }
}
