/**
 * The public operations of tm1637.c, each as a pure function from its
 * arguments to the bus trace it produces.  GPIO pin numbers, pin directions
 * and delays do not influence which bytes are sent, so they do not appear.
 */
module Driver {
  import opened Bits
  import opened Bus
  import opened Commands
  import opened Decimal

  /** The brightness actually sent: levels above the maximum are lowered to it. */
  function ClampBrightness(level: nat): (b: nat)
    ensures b <= BrightnessMax
    ensures b == level || (level > BrightnessMax && b == BrightnessMax)
  {
    if level > BrightnessMax then BrightnessMax else level
  }

  /** set_brightness: one display-control command carrying the clamped level. */
  function SetBrightness(level: nat): (tr: Trace)
    ensures |tr| == 1 && |tr[0]| == 1
    ensures tr[0][0] & 0xF8 == DisplayCtrl
    ensures (tr[0][0] & 0x07) as nat == ClampBrightness(level)
  {
    Command(DisplayCtrl | ClampBrightness(level) as Byte)
  }

  /**
   * The first k rounds of the position loop of display_number and
   * clear_display: round i appends one transaction, the address of position i
   * followed by its data byte.
   */
  function WritesUpTo(data: seq<Byte>, k: nat): (tr: Trace)
    requires |data| == Positions && k <= Positions
    ensures |tr| == k
    ensures forall i :: 0 <= i < k ==> tr[i] == [AddrStart + i as Byte, data[i]]
  {
    if k == 0 then []
    else WritesUpTo(data, k - 1) + [[AddrStart + (k - 1) as Byte, data[k - 1]]]
  }

  /** The whole position loop: one address-plus-data transaction per position, position 0 first. */
  function AddressedWrites(data: seq<Byte>): (tr: Trace)
    requires |data| == Positions
    ensures |tr| == Positions
    ensures forall i :: 0 <= i < Positions ==> tr[i] == [AddrStart + i as Byte, data[i]]
  {
    WritesUpTo(data, Positions)
  }

  /** display_digit: silently ignores a position above 3 or a digit above 9. */
  function DisplayDigit(position: Byte, digit: Byte): (tr: Trace)
    ensures tr == [] <==> (position > 3 || digit > 9)
    ensures tr != [] ==>
      && |tr| == 2
      && tr[0] == [DataFixed]
      && |tr[1]| == 2
      && AddrStart <= tr[1][0] <= AddrStart + 3
      && tr[1][0] - AddrStart == position
      && tr[1][1] == SegmentPatterns[digit]
  {
    if position > 3 || digit > 9 then []
    else
      Command(DataFixed) + [[AddrStart + position, SegmentPatterns[digit]]]
  }

  /**
   * The loop of display_number that fills digits[3 - i] with number % 10 and
   * then divides number by 10, four times.  The caller has already rejected
   * numbers outside 0..9999.
   */
  method ExtractDigits(number: int) returns (digits: seq<nat>)
    requires 0 <= number <= 9999
    ensures |digits| == 4 && AllDigits(digits)
    ensures digits[0] * 1000 + digits[1] * 100 + digits[2] * 10 + digits[3] == number
    ensures digits == Digits(number, 4)
  {
    digits := [0, 0, 0, 0];
    var n := number;
    var i := 0;
    while i < 4
      invariant 0 <= i <= 4 && |digits| == 4
      invariant 0 <= n
      invariant Digits(number, 4) == Digits(n, 4 - i) + digits[4 - i..]
    {
      assert Digits(n, 4 - i) == Digits(n / 10, 3 - i) + [n % 10];
      var updated := digits[3 - i := n % 10];
      assert updated[3 - i..] == [updated[3 - i]] + updated[4 - i..];
      assert updated[4 - i..] == digits[4 - i..];
      digits := updated;
      n := n / 10;
      i := i + 1;
    }
    assert Digits(n, 0) == [] && digits[0..] == digits;
    assert digits == Digits(number, 4);
    ValueOfDigits(number, 4);
    FourDigitValue(digits);
  }

  /**
   * display_number: silently ignores numbers outside 0..9999; otherwise one
   * fixed-addressing command, then the segment pattern of each decimal digit,
   * most significant first, at positions 0..3.
   */
  function DisplayNumber(number: int): (tr: Trace)
    ensures tr == [] <==> (number < 0 || number > 9999)
    ensures tr != [] ==>
      && |tr| == 5
      && tr[0] == [DataFixed]
      && forall i :: 1 <= i < 5 ==>
           && |tr[i]| == 2
           && tr[i][0] == AddrStart + (i - 1) as Byte
           && tr[i][1] == SegmentPatterns[Digits(number, 4)[i - 1]]
  {
    if number < 0 || number > 9999 then []
    else
      var digits := Digits(number, 4);
      var writes := AddressedWrites(seq(4, i requires 0 <= i < 4 => SegmentPatterns[digits[i]]));
      var tr := Command(DataFixed) + writes;
      assert forall i :: 1 <= i < 5 ==> tr[i] == writes[i - 1];
      tr
  }

  /** clear_display: one fixed-addressing command, then the blank pattern at positions 0..3. */
  function ClearDisplay(): (tr: Trace)
    ensures |tr| == 5 && tr[0] == [DataFixed]
    ensures forall i :: 1 <= i < 5 ==> tr[i] == [AddrStart + (i - 1) as Byte, Blank]
  {
    Command(DataFixed) + AddressedWrites([Blank, Blank, Blank, Blank])
  }

  /** init (after the GPIO set-up): clear the display, then set full brightness. */
  function Init(): (tr: Trace)
    ensures |tr| == 6 && tr[0] == [DataFixed]
    ensures forall i :: 1 <= i < 5 ==> tr[i] == [AddrStart + (i - 1) as Byte, Blank]
    ensures tr[5] == [0x8F]
  {
    ClearDisplay() + SetBrightness(BrightnessMax)
  }

  /** set_brightness(4) sends the single byte 0x8C and set_brightness(0) sends 0x88. */
  lemma SetBrightnessExamples()
    ensures SetBrightness(4) == [[0x8C]]
    ensures SetBrightness(0) == [[0x88]]
  {
  }

  /** Every level from 7 up sends the full-brightness command 0x8F. */
  lemma SetBrightnessSaturates(level: nat)
    requires level >= BrightnessMax
    ensures SetBrightness(level) == [[0x8F]]
  {
  }

  /** A higher requested level never yields a lower command byte. */
  lemma SetBrightnessMonotone(level: nat, level': nat)
    requires level <= level'
    ensures SetBrightness(level)[0][0] <= SetBrightness(level')[0][0]
  {
  }

  /** The digits display_number extracts are decimal digits whose positional value is the number. */
  lemma DisplayNumberDigits(number: int)
    requires 0 <= number <= 9999
    ensures var ds := Digits(number, 4);
      && AllDigits(ds)
      && ds[0] * 1000 + ds[1] * 100 + ds[2] * 10 + ds[3] == number
  {
    ValueOfDigits(number, 4);
    FourDigitValue(Digits(number, 4));
  }

  /** display_number(1234) writes the patterns of 1, 2, 3, 4 at 0xC0..0xC3 after one 0x44. */
  lemma DisplayNumberExample()
    ensures DisplayNumber(1234) == [[0x44], [0xC0, 0x06], [0xC1, 0x5B], [0xC2, 0x4F], [0xC3, 0x66]]
  {
    DigitsOf1234();
    var tr := DisplayNumber(1234);
    assert tr[1] == [0xC0, 0x06] by { assert tr[1] == [tr[1][0], tr[1][1]]; }
    assert tr[2] == [0xC1, 0x5B] by { assert tr[2] == [tr[2][0], tr[2][1]]; }
    assert tr[3] == [0xC2, 0x4F] by { assert tr[3] == [tr[3][0], tr[3][1]]; }
    assert tr[4] == [0xC3, 0x66] by { assert tr[4] == [tr[4][0], tr[4][1]]; }
    assert tr == [tr[0], tr[1], tr[2], tr[3], tr[4]];
  }

  /** The four decimal digits of 1234. */
  lemma DigitsOf1234()
    ensures Digits(1234, 4) == [1, 2, 3, 4]
  {
    assert Digits(1, 1) == [1] by { assert Digits(0, 0) == []; }
    assert Digits(12, 2) == [1, 2];
    assert Digits(123, 3) == [1, 2, 3];
  }
}
