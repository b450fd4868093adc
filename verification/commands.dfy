/**
 * The command bytes of tm1637.h and the segment pattern table of tm1637.c.
 */
module Commands {
  import opened Wrappers
  import opened Bits

  /** Data command: write display registers with auto-incrementing address. */
  const DataAuto: Byte := 0x40
  /** Data command: write display registers at a fixed, explicitly given address. */
  const DataFixed: Byte := 0x44
  /** Address command for digit position 0; position p is AddrStart + p. */
  const AddrStart: Byte := 0xC0
  /** Display-control command with the display-on bit set; brightness goes in the low three bits. */
  const DisplayCtrl: Byte := 0x88

  const BrightnessMin: nat := 0
  const BrightnessMax: nat := 7

  /** Number of digit positions on the module. */
  const Positions: nat := 4

  /** Segment bitmask for each decimal digit, indexed by the digit. */
  const SegmentPatterns: seq<Byte> := [0x3F, 0x06, 0x5B, 0x4F, 0x66, 0x6D, 0x7D, 0x07, 0x7F, 0x6F]

  /** The all-segments-off pattern. */
  const Blank: Byte := 0x00

  /** The first index of x in s, if any. */
  function Find(s: seq<Byte>, x: Byte): (r: Option<nat>)
    ensures r.None? <==> x !in s
    ensures r.Some? ==> r.value < |s| && s[r.value] == x
    ensures r.Some? ==> forall j :: 0 <= j < r.value ==> s[j] != x
  {
    if s == [] then None
    else if s[0] == x then Some(0)
    else match Find(s[1..], x)
      case None => None
      case Some(i) => Some(i + 1)
  }

  /** The digit a segment pattern renders, or None for a pattern that is not a digit. */
  function DigitOfPattern(p: Byte): (r: Option<nat>)
    ensures r.Some? ==> r.value <= 9 && SegmentPatterns[r.value] == p
    ensures r.None? <==> p !in SegmentPatterns
  {
    Find(SegmentPatterns, p)
  }

  /** The table is injective: each digit's pattern reads back as that digit. */
  lemma DigitOfPatternInverse(d: nat)
    requires d <= 9
    ensures DigitOfPattern(SegmentPatterns[d]) == Some(d)
  {
    assert forall i, j :: 0 <= i < j < |SegmentPatterns| ==> SegmentPatterns[i] != SegmentPatterns[j];
  }

  /** Every pattern is a non-empty 7-bit mask, and the blank pattern renders no digit. */
  lemma PatternsAreSevenBit()
    ensures |SegmentPatterns| == 10
    ensures forall d :: 0 <= d < 10 ==> SegmentPatterns[d] & 0x80 == 0 && SegmentPatterns[d] != Blank
    ensures DigitOfPattern(Blank) == None
  {
  }
}
