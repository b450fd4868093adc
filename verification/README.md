# TM1637 display driver: a Dafny model of its bus traffic

This project models the logic layer of a bit-banged driver for the TM1637
4-digit 7-segment LED controller (`tm1637.c`, constants in `tm1637.h`).
The driver's public operations decide which bytes go onto the two-wire bus,
in what order, and how they are grouped into start…stop transactions. Here
each operation is a pure function from its arguments to a **trace**: a
sequence of transactions, where each transaction is the bytes written between
one start condition and the next stop condition.

Layers, one module per file:

- `Bits` (`bits.dfy`): LSB-first serialisation of a number into bits, and the weighted sum that
  reads it back. The two are inverse to each other. The bit-vector shift/mask
  view of a byte agrees with the arithmetic view.
- `Decimal` (`decimal.dfy`): splitting a number into a fixed number of decimal digits, most
  significant first, and the positional value that reads them back. These two are
  inverse to each other as well.
- `Bus` (`bus.dfy`): abstract bus events (`Start`, `Bit`, `AckClock`, `Stop`). `WriteByte`
  follows the shift-and-mask loop of `tm1637_write_byte`. `WriteCommand` frames
  one byte. `Lower` turns a trace into events and `Parse` reads them back; each
  inverts the other.
- `Commands` (`commands.dfy`): the command bytes of `tm1637.h` and the segment pattern table,
  with its inverse `DigitOfPattern`.
- `Driver` (`driver.dfy`): `SetBrightness`, `DisplayDigit`, `DisplayNumber` (with the digit
  extraction loop `ExtractDigits`), `ClearDisplay` and `Init`, each returning its trace.
- `Chip` (`chip.dfy`): a reference reading of the command bytes. It serves as the partner
  that says what a trace *does*. It is a modelling choice, not code from the
  repository: `tm1637.h` only names the values 0x40, 0x44, 0xC0 and 0x88. It tracks the
  addressing mode (0x40/0x44), four digit registers (address 0xC0..0xC3 plus one
  data byte), and display control. The control-byte layout (0x80..0x8F: bit 3 is
  display-on, bits 0..2 are brightness) is the TM1637's documented command
  format, not something the header states. A register write outside fixed
  addressing makes the run fail. That rule is stricter than the chip, which
  would store the byte. It encodes the driver's own discipline of sending
  0x44 before every single-address write, so `Chip.RunDefinedIff`,
  `Chip.RunsOnlyIfOrdered` and `Session.SessionRuns` are statements about that
  discipline.
- `Effects` (`effects.dfy`): what each operation does to that chip, and that each obeys the
  ordering rule: the fixed-addressing command 0x44 precedes every register write.
- `Session` (`session.dfy`): any sequence of public calls obeys the ordering rule, and so runs
  to completion from any chip state.

## Model

| member | source | states |
|---|---|---|
| `Commands.DigitOfPattern` | tm1637.c:5-16 | the digit whose table entry is the given pattern; None exactly when the pattern is not in the table |
| `Commands.DigitOfPatternInverse` | tm1637.c:5-16 | the ten segment patterns are distinct: each digit's pattern reads back as that digit |
| `Commands.PatternsAreSevenBit` | tm1637.c:5-16 | the table has ten entries, each a non-empty 7-bit mask; the blank pattern 0x00 is no digit |
| `Commands.Find` | tm1637.c:5-16 | first index of a byte in the table, None exactly when absent |
| `Driver.ClampBrightness` | tm1637.c:46-47 | the level sent never exceeds 7, and equals the request when the request is at most 7 |
| `Driver.SetBrightness` | tm1637.c:44-49 | one transaction of one byte whose top five bits are the display-control opcode 0x88 and whose low three bits are the clamped level |
| `Driver.SetBrightnessExamples` | tm1637.c:44-49 | level 4 sends 0x8C and level 0 sends 0x88 |
| `Driver.SetBrightnessSaturates` | tm1637.c:46-48 | every level from 7 up sends the same full-brightness command 0x8F |
| `Driver.SetBrightnessMonotone` | tm1637.c:44-49 | a higher requested level never yields a lower command byte |
| `Driver.DisplayDigit` | tm1637.c:51-64 | no transactions exactly when position > 3 or digit > 9; otherwise two: [0x44], then an address in 0xC0..0xC3 at offset `position` followed by the table entry for `digit` |
| `Driver.ExtractDigits` | tm1637.c:71-78 | the remainder/divide loop yields four decimal digits whose value d0*1000+d1*100+d2*10+d3 is the number |
| `Driver.DisplayNumber` | tm1637.c:66-91 | no transactions exactly when the number is outside 0..9999; otherwise five: [0x44], then for i = 0..3 in order the address 0xC0+i and the table entry for decimal digit i of the number, most significant first |
| `Driver.DisplayNumberDigits` | tm1637.c:71-78 | the extracted digits are each at most 9 and weigh back to the number |
| `Driver.DisplayNumberExample` | tm1637.c:80-90 | display_number(1234) is exactly [[0x44], [0xC0, 0x06], [0xC1, 0x5B], [0xC2, 0x4F], [0xC3, 0x66]] |
| `Driver.ClearDisplay` | tm1637.c:93-106 | [0x44], then the blank pattern 0x00 at each of 0xC0..0xC3 in order |
| `Driver.Init` | tm1637.c:29-42 | six transactions: [0x44], the blank pattern 0x00 at each of 0xC0..0xC3 in order, then the full-brightness command 0x8F |
| `Driver.WritesUpTo` | tm1637.c:84-90 | the first k rounds of the position loop, which appends one transaction per round, give exactly k transactions; transaction i is the address 0xC0+i followed by data byte i |
| `Driver.AddressedWrites` | tm1637.c:99-105 | all four rounds of the loop: the four addresses 0xC0..0xC3 in order, each followed by its position's data byte |
| `Bits.WeightOfLowBits` | tm1637.c:153-157 | summing bit_i * 2^i over the bits sent recovers any value that fits in the width |
| `Bits.LowBitsOfWeight` | tm1637.c:153-157 | serialising the weight of a bit sequence gives the same bits back |
| `Bits.LowBitsAreShiftedMasks` | tm1637.c:155-156 | bit i sent for a byte is (byte >> i) & 1 |
| `Bus.WriteByte` | tm1637.c:151-169 | exactly eight bit events, bit i being (byte >> i) & 1, then one acknowledgement clock; the acknowledgement is true exactly when DIO reads low |
| `Bits.ByteOfBits` | tm1637.c:153-157 | assembling LSB-first bits into a byte gives the byte whose value is the sum of bit_i * 2^i |
| `Bus.ByteBitsAreShiftedMasks` | tm1637.c:155-156 | for every i < 8, bit i sent for a byte is (byte >> i) & 1 |
| `Bus.ByteOfByteBits` | tm1637.c:153-157 | the eight bits sent for a byte assemble back into the byte |
| `Bus.ByteBitsOfByte` | tm1637.c:153-157 | any eight bit levels, assembled into a byte, are sent as those same levels |
| `Bus.ByteBits` | tm1637.c:153-157 | exactly eight bits, the byte's bits least significant first; `Bus.ByteBitsAreShiftedMasks` and `Bus.WeightOfByteBits` state their values |
| `Bus.ByteEvents` | tm1637.c:151-169 | one write_byte is nine events: the eight bits of the byte in order, then the acknowledgement clock |
| `Bus.BytesEvents` | tm1637.c:171-176 | the bytes of a transaction are nine events each, and none of them is a start or stop condition |
| `Bus.TransactionEvents` | tm1637.c:171-176 | a transaction opens with a start, closes with a stop, and carries no start or stop in between |
| `Bus.Lower` | tm1637.c:171-176 | a trace lowers to no events exactly when it is empty; otherwise the events open with a start and close with a stop |
| `Bus.WeightOfByteBits` | tm1637.c:153-157 | the eight bits sent for a byte, read back LSB first, are the byte |
| `Bus.ByteBitsExample` | tm1637.c:153-157 | 0x3F goes out as 1,1,1,1,1,1,0,0 |
| `Bus.CommandEvents` | tm1637.c:171-176 | a command is a start, the byte's nine events, a stop |
| `Bus.WriteCommand` | tm1637.c:171-176 | the events of write_command are the lowering of a one-byte transaction and parse back to it |
| `Bus.ParseLower` | tm1637.c:109-130 | start/stop framing loses nothing: parsing the events of any trace gives the trace back |
| `Bus.LowerParse` | tm1637.c:109-130 | every well-framed event stream is exactly the events of the trace it parses to |
| `Decimal.Digits` | tm1637.c:74-78 | exactly `width` entries, each a decimal digit; `Decimal.ValueOfDigits` and `Decimal.DigitsOfValue` make it the inverse of the positional value |
| `Decimal.ValueOfDigits` | tm1637.c:74-78 | reading back the digits of a number that fits in the width recovers it |
| `Decimal.DigitsOfValue` | tm1637.c:74-78 | decomposing the value of a digit sequence gives the same digits |
| `Decimal.FourDigitValue` | tm1637.c:71-78 | for four digits the value is d0*1000 + d1*100 + d2*10 + d3 |
| `Chip.Reading` | tm1637.c:84-90 | the registers read as a number in 0..9999 exactly when every register holds a digit pattern |
| `Chip.ShownDigits` | tm1637.c:84-90 | the digits shown are decimal digits whose patterns are the registers |
| `Chip.CommandKinds` | tm1637.c:48-62 | the driver's three kinds of transaction are read unambiguously: [0x44] only as a mode command, [0x88 + b] for b <= 7 only as display-on at level b, [0xC0+p, x] for p <= 3 only as a write of register p |
| `Chip.RunDefinedIff` | tm1637.c:80-90 | a trace runs to completion exactly when every register write happens in fixed addressing mode |
| `Chip.OrderedRunsFromAnyState` | tm1637.c:80-90 | a trace that sends 0x44 before its writes runs to completion from any chip state |
| `Chip.RunsOnlyIfOrdered` | tm1637.c:80-90 | from a chip not already in fixed mode, only traces obeying the ordering rule run to completion |
| `Chip.OrderedConcat` | tm1637.c:80-90 | the ordering rule survives one trace following another |
| `Chip.FixedFirstIsOrdered` | tm1637.c:80-90 | a trace that opens with 0x44 and never changes mode again obeys the ordering rule |
| `Chip.ModeAfterConcat` | tm1637.c:80-82 | the mode after A + B is the mode after B starting from the mode after A |
| `Chip.RunMode` | tm1637.c:80-82 | after a run the chip is in the mode the trace's last data command chose |
| `Effects.RunConcat` | tm1637.c:84-90 | running A + B is running A, then B from where A left the chip |
| `Effects.RunWrites` | tm1637.c:84-90 | in fixed mode the four address-plus-data writes replace the registers with their data |
| `Effects.DisplayNumberEffect` | tm1637.c:66-91 | for 0..9999 the registers become the patterns of the number's digits, most significant at position 0; otherwise the chip is untouched |
| `Effects.RenderedReadsBack` | tm1637.c:71-90 | the registers display_number writes read back as the number |
| `Effects.ReadingDeterminesRegisters` | tm1637.c:71-90 | registers that read as a number are exactly those display_number writes for it |
| `Effects.DisplayNumberReadsBack` | tm1637.c:66-91 | after display_number(n) for n in 0..9999 the display reads n |
| `Effects.DisplayDigitEffect` | tm1637.c:51-64 | the register at the position takes the digit's pattern and the others keep theirs; out-of-range input leaves the chip untouched |
| `Effects.ClearDisplayEffect` | tm1637.c:93-106 | all four registers become blank, and blank registers read as no number |
| `Effects.SetBrightnessEffect` | tm1637.c:44-49 | the display is switched on at the clamped level; mode and registers are unchanged |
| `Effects.InitEffect` | tm1637.c:40-41 | after init the display is blank, on, at brightness 7, in fixed addressing mode |
| `Effects.SetBrightnessOrdered` | tm1637.c:44-49 | set_brightness writes no register, so it obeys the ordering rule |
| `Effects.DisplayDigitOrdered` | tm1637.c:56-63 | display_digit sends 0x44 before its register write |
| `Effects.DisplayNumberOrdered` | tm1637.c:80-90 | display_number sends 0x44 before each of its four register writes |
| `Effects.ClearDisplayOrdered` | tm1637.c:95-105 | clear_display sends 0x44 before each of its four register writes |
| `Effects.InitOrdered` | tm1637.c:40-41 | init obeys the ordering rule |
| `Session.CallOrdered` | tm1637.h:24-28 | each public operation obeys the ordering rule |
| `Session.SessionOrdered` | main.c:9-30 | however the public operations are called in sequence, every register write follows a 0x44 with no 0x40 in between |
| `Session.SessionRuns` | main.c:9-30 | every such sequence of calls runs to completion on the chip from any state |

## Left out

- GPIO calls (`gpio_init`, `gpio_set_dir`, `gpio_put`, `gpio_get`) and `sleep_us` delays. These are Pico SDK hardware calls and timing, not bus content. The level `gpio_get` reads during the acknowledgement clock is the `dioLevel` parameter of `Bus.WriteByte`.
- Pin-level waveforms of `tm1637_start`, `tm1637_stop` and `tm1637_write_bit` (tm1637.c:109-149). This covers open-drain release by switching DIO to input, and the order of line transitions. They appear only as the abstract `Start`, `Bit`, `AckClock` and `Stop` events; electrical behaviour cannot be stated here.
- The pin numbers: the `CLK_PIN`/`DIO_PIN` globals, `Init`'s two GPIO arguments, and the `TM1637_CLK_PIN`/`TM1637_DIO_PIN` macros. None of them influences which bytes are sent, so `Driver.Init` takes no arguments.
- The acknowledgement result. `tm1637_write_command` and every operation discard it, so traces carry no acknowledgement values.
- Negative brightness values. The source clamps only the upper bound, so the level is a `nat`.
- Integer widths. `display_number`'s `int` argument is range-checked before use, and the digit, position and address values all fit in `uint8_t`. So no wrap-around arises. Bytes are `bv8`.
- `Driver.ExtractDigits` requires 0..9999: the loop is reached only after `display_number`'s range check.
- `main.c`'s infinite demo loop and its `sleep_ms` delays. Only the fact that any sequence of calls keeps the ordering rule is modelled (`Session`).
- `Chip`: a register write outside fixed addressing makes the run fail, where the chip itself would store the byte at the given address. The rule states the driver's ordering discipline; what the chip shows after a write in auto-increment mode is not modelled.
- `Chip` reads only the transaction shapes this driver sends. Other shapes leave its state unchanged. Multi-byte data writes, key scanning, and the chip's grids 0xC4/0xC5 are not modelled.
