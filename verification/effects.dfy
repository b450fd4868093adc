/**
 * What each public operation of tm1637.c does to the chip, read through the
 * reference interpretation of the command bytes: which registers change, to
 * which patterns, and that every operation obeys the ordering rule.
 */
module Effects {
  import opened Wrappers
  import opened Bits
  import opened Bus
  import opened Commands
  import opened Decimal
  import opened Driver
  import opened Chip

  /** Running A + B is running A, then running B from where A left the chip. */
  lemma {:induction false} RunConcat(s: State, a: Trace, b: Trace)
    ensures Run(s, a + b) == match Run(s, a) case None => None case Some(s') => Run(s', b)
    decreases |a|
  {
    if a == [] {
      assert a + b == b;
    } else {
      assert (a + b)[0] == a[0] && (a + b)[1..] == a[1..] + b;
      match Step(s, a[0])
      case None =>
      case Some(s') => RunConcat(s', a[1..], b);
    }
  }

  /** In fixed addressing, an address-plus-data write sets that one register. */
  lemma StepWrite(s: State, p: nat, d: Byte)
    requires s.mode == Some(FixedAddress) && p < 4
    ensures Step(s, [AddrStart + p as Byte, d]) == Some(s.(grid := s.grid[p := d]))
  {
    CommandKinds(0, p as Byte, d);
  }

  /** In fixed addressing, the writes from position k on replace registers k..3 and keep the others. */
  lemma {:induction false} RunWritesFrom(s: State, data: Grid, w: Trace, k: nat)
    requires s.mode == Some(FixedAddress) && k <= 4
    requires |w| == 4 && forall i :: 0 <= i < 4 ==> w[i] == [AddrStart + i as Byte, data[i]]
    ensures Run(s, w[k..]) == Some(s.(grid := s.grid[..k] + data[k..]))
    decreases 4 - k
  {
    if k == 4 {
      assert w[k..] == [];
      assert s.grid[..k] + data[k..] == s.grid;
    } else {
      var s' := s.(grid := s.grid[k := data[k]]);
      StepWrite(s, k, data[k]);
      assert w[k..][1..] == w[k + 1..];
      RunWritesFrom(s', data, w, k + 1);
      assert s'.grid[..k + 1] + data[k + 1..] == s.grid[..k] + data[k..];
    }
  }

  /** In fixed addressing, the four address-plus-data writes replace the registers with their data. */
  lemma RunWrites(s: State, data: Grid)
    requires s.mode == Some(FixedAddress)
    ensures Run(s, AddressedWrites(data)) == Some(s.(grid := data))
  {
    var w := AddressedWrites(data);
    RunWritesFrom(s, data, w, 0);
    assert w[0..] == w;
    assert s.grid[..0] + data[0..] == data;
  }

  /** The fixed-addressing command followed by the four writes: fixed mode, registers replaced. */
  lemma RunFixedWrites(s: State, data: Grid)
    ensures Run(s, Command(DataFixed) + AddressedWrites(data))
         == Some(s.(mode := Some(FixedAddress), grid := data))
  {
    var s' := s.(mode := Some(FixedAddress));
    assert Run(s, Command(DataFixed)) == Some(s') by {
      assert Command(DataFixed)[1..] == [];
    }
    RunConcat(s, Command(DataFixed), AddressedWrites(data));
    RunWrites(s', data);
  }

  /**
   * display_number shows the decimal digits of a number in 0..9999, most
   * significant at position 0, and leaves the chip untouched for any other number.
   */
  lemma DisplayNumberEffect(s: State, number: int)
    ensures Run(s, DisplayNumber(number)) ==
      if 0 <= number <= 9999 then Some(s.(mode := Some(FixedAddress), grid := Rendered(number)))
      else Some(s)
  {
    if 0 <= number <= 9999 {
      var ds := Digits(number, 4);
      var patterns := seq(4, i requires 0 <= i < 4 => SegmentPatterns[ds[i]]);
      assert patterns == Rendered(number);
      RunFixedWrites(s, Rendered(number));
    }
  }

  /** Reading the registers display_number leaves gives the number back. */
  lemma RenderedReadsBack(number: nat)
    requires number <= 9999
    ensures Reading(Rendered(number)) == Some(number)
  {
    var ds := Digits(number, 4);
    var g := Rendered(number);
    forall i | 0 <= i < 4
      ensures DigitOfPattern(g[i]) == Some(ds[i])
    {
      DigitOfPatternInverse(ds[i]);
    }
    assert ShownDigits(g) == ds;
    ValueOfDigits(number, 4);
  }

  /** Registers that read as a number are exactly the registers display_number writes for it. */
  lemma ReadingDeterminesRegisters(g: Grid)
    requires Reading(g).Some?
    ensures g == Rendered(Reading(g).value)
  {
    var ds := ShownDigits(g);
    DigitsOfValue(ds);
    assert Digits(Reading(g).value, 4) == ds;
  }

  /** After display_number(n) for n in 0..9999 the display reads n. */
  lemma DisplayNumberReadsBack(s: State, number: int)
    requires 0 <= number <= 9999
    ensures Run(s, DisplayNumber(number)).Some?
    ensures Reading(Run(s, DisplayNumber(number)).value.grid) == Some(number)
  {
    DisplayNumberEffect(s, number);
    RenderedReadsBack(number);
  }

  /**
   * display_digit sets the register at the position to the digit's pattern and
   * leaves the other registers alone; out-of-range input leaves the chip untouched.
   */
  lemma DisplayDigitEffect(s: State, position: Byte, digit: Byte)
    ensures Run(s, DisplayDigit(position, digit)) ==
      if position <= 3 && digit <= 9
      then Some(s.(mode := Some(FixedAddress), grid := s.grid[position as int := SegmentPatterns[digit]]))
      else Some(s)
  {
    if position <= 3 && digit <= 9 {
      var tr := DisplayDigit(position, digit);
      var s' := s.(mode := Some(FixedAddress));
      assert tr == Command(DataFixed) + [[AddrStart + position, SegmentPatterns[digit]]];
      assert Run(s, Command(DataFixed)) == Some(s') by {
        assert Command(DataFixed)[1..] == [];
      }
      RunConcat(s, Command(DataFixed), [[AddrStart + position, SegmentPatterns[digit]]]);
      var t: Transaction := [AddrStart + position, SegmentPatterns[digit]];
      CommandKinds(0, position, SegmentPatterns[digit]);
      assert [t][1..] == [];
    }
  }

  /** clear_display blanks all four registers. */
  lemma ClearDisplayEffect(s: State)
    ensures Run(s, ClearDisplay()) == Some(s.(mode := Some(FixedAddress), grid := BlankGrid))
    ensures Reading(BlankGrid) == None
  {
    RunFixedWrites(s, BlankGrid);
    PatternsAreSevenBit();
  }

  /** set_brightness switches the display on at the clamped level and touches nothing else. */
  lemma SetBrightnessEffect(s: State, level: nat)
    ensures Run(s, SetBrightness(level)) == Some(s.(lit := true, brightness := ClampBrightness(level)))
  {
    var b := ClampBrightness(level) as Byte;
    CommandKinds(b, 0, 0);
    assert SetBrightness(level) == [[DisplayCtrl | b]];
  }

  /** init leaves a blank display, switched on at full brightness, in fixed addressing. */
  lemma InitEffect(s: State)
    ensures Run(s, Init()) ==
      Some(s.(mode := Some(FixedAddress), grid := BlankGrid, lit := true, brightness := BrightnessMax))
  {
    ClearDisplayEffect(s);
    var s' := s.(mode := Some(FixedAddress), grid := BlankGrid);
    RunConcat(s, ClearDisplay(), SetBrightness(BrightnessMax));
    SetBrightnessEffect(s', BrightnessMax);
  }

  // ---------------------------------------------------------------------------
  // The ordering rule

  /** set_brightness writes no register, so it obeys the ordering rule. */
  lemma SetBrightnessOrdered(level: nat)
    ensures FixedBeforeWrites(SetBrightness(level))
  {
    CommandKinds(ClampBrightness(level) as Byte, 0, 0);
  }

  /** display_digit sends the fixed-addressing command before its register write. */
  lemma DisplayDigitOrdered(position: Byte, digit: Byte)
    ensures FixedBeforeWrites(DisplayDigit(position, digit))
  {
    var tr := DisplayDigit(position, digit);
    if tr != [] {
      FixedFirstIsOrdered(tr);
    }
  }

  /** display_number sends the fixed-addressing command before each of its four register writes. */
  lemma DisplayNumberOrdered(number: int)
    ensures FixedBeforeWrites(DisplayNumber(number))
  {
    var tr := DisplayNumber(number);
    if tr != [] {
      FixedFirstIsOrdered(tr);
    }
  }

  /** clear_display sends the fixed-addressing command before its four register writes. */
  lemma ClearDisplayOrdered()
    ensures FixedBeforeWrites(ClearDisplay())
  {
    FixedFirstIsOrdered(ClearDisplay());
  }

  /** init, being clear_display followed by set_brightness, obeys the ordering rule. */
  lemma InitOrdered()
    ensures FixedBeforeWrites(Init())
  {
    ClearDisplayOrdered();
    SetBrightnessOrdered(BrightnessMax);
    OrderedConcat(ClearDisplay(), SetBrightness(BrightnessMax));
  }
}
