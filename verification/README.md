# Si7005 humidity and temperature sensor driver — a Dafny model

This project models the Mongoose OS driver for the Silicon Labs Si7005, an
I2C relative-humidity and temperature sensor. The model covers:

- the probe of the ID register;
- the configuration read-modify-write, and the two operations built on it:
  starting a conversion and switching the heater;
- the ready test on the status register;
- reading and decoding the data register, including the humidity
  linearisation and the temperature compensation;
- the blocking temperature and humidity reads, with their busy-wait;
- the entry points that use the process-wide default bus.

The I2C transport the driver calls (`mgos_i2c_read_reg_b`,
`mgos_i2c_read_reg_w` and `mgos_i2c_write_reg_b`) is not part of this model.
It is replaced by a scripted bus (`I2c.Transport`):

- Each kind of access takes its answers, in order, from a stream of its own:
  byte reads, word reads and write acknowledgements.
- Every access is appended to a trace together with the answer it got.
  `I2c.Follows` relates a bus to a later state of it: the trace only grows,
  and replaying the new accesses against the streams gives exactly the
  answers recorded, in order, and leaves exactly the later streams.
- A stream that has run dry answers like a failing bus: a read gives -1 and a
  write is not acknowledged.

Every finite behaviour of a real bus is therefore some choice of the three
streams. The busy-wait `while (!si7005_is_data_ready(i2c)) {}` becomes a total
function (`Driver.WaitReady`). It terminates on the length of the byte stream
and reports `Stuck` exactly when no status answer still to come reads as ready.
That is the case in which the C loop spins for ever, and the blocking reads
then report `Hung`.

Files and modules:

- `i2c.dfy` (`I2c`): the scripted transport, its trace and the three
  primitives.
- `registers.dfy` (`Registers`): the register map, the bit view of a byte, and
  the ready test.
- `calibration.dfy` (`Calibration`): the decoding formulas, computed in exact
  rational arithmetic, and their properties.
- `driver.dfy` (`Driver`): probe, configuration read-modify-write, start,
  heater, ready test, data read, and the busy-wait.
- `si7005.dfy` (`Si7005`): the blocking reads and the default-bus entry points.
- `properties.dfy` (`Properties`): ordering facts about whole access
  sequences, what a chip that answers every access gives, and a concrete
  sample.

The blocking reads are methods, so callers rely on their contracts rather than
their bodies. The contracts of the blocking reads are the predicates
`Si7005.TempReadSpec`, `Si7005.RhReadSpec`, `Si7005.MeasureSpec` and
`Si7005.RhBodySpec`. Each of them states two things:

- The outcome (a value, INVALID_VALUE, or a hang) and the replies left
  unused are the ones a reference computed from the reply streams alone
  determines (`Si7005.ExpectConversion`, `Si7005.ExpectTemp`,
  `Si7005.ExpectRhBody`, `Si7005.ExpectRh`).
- The accesses have a fixed shape: a complete session when a value is
  returned; when INVALID_VALUE is returned, a failure-free prefix of that
  session ending at the first access that failed.

The default-bus variants are proved to have exactly the same contracts.

The data read converts a temperature word `r` as `((r >> 2) / 32.0) - 50`
(src/si7005.c:117), and the model follows that formula.
`Calibration.TemperatureSamples` evaluates it at a few words.

## Model

| member | source | states |
|---|---|---|
| Registers.ReadyCodeIsStatusBit | src/si7005.c:107-110 | `(ret & nRDY) == 0` applied to a byte answer is "bit 0 of that byte is clear". The failure answer -1 has bit 0 set and so reads as not ready. |
| Calibration.Temperature | src/si7005.c:117 | The temperature is at least -50 °C, and it is exactly (word div 4) / 32 − 50. |
| Calibration.RawHumidity | src/si7005.c:119 | The humidity before linearisation is at least -24 %, exactly (word div 16) / 16 − 24, and at most 231.9375 for a 16-bit word. |
| Calibration.Linearize | src/si7005.c:120-121 | Linearisation subtracts the quadratic correction of the datasheet. Whatever its input, the result stays above -18.1, so it is never INVALID_VALUE. |
| Calibration.LinearizeMonotone | src/si7005.c:119-121 | Over every raw humidity the chip can report (from -24 % up), linearisation is strictly increasing. |
| Calibration.Humidity | src/si7005.c:119-121 | The linearised humidity of a word is bounded below by the linearisation of the lowest raw value. |
| Calibration.Decode | src/si7005.c:115-123 | Decoding a word never yields INVALID_VALUE. It is the temperature formula for a temperature conversion and the linearised humidity otherwise. |
| Calibration.RhTcomp | src/si7005.c:126-129 | Compensation leaves the reading unchanged at 30 °C. Elsewhere it is the affine map rh·(1 + 0.00237·(T−30)) + 0.1973·(T−30). |
| Calibration.RhTcompInverse | src/si7005.c:127 | Compensation at a fixed temperature can be undone: subtracting the offset and dividing by the scale recovers the reading. |
| Calibration.RhTcompMonotoneInTemp | src/si7005.c:127 | For any reading the linearisation can produce, a higher temperature gives a strictly higher compensated value, and an equal one the same value. |
| Calibration.DecodeMonotone | src/si7005.c:117-121 | Both decodings are monotone in the data word. |
| Calibration.DecodeIgnoresLowBits | src/si7005.c:117-119 | The two low bits of a temperature word and the four low bits of a humidity word do not affect the value. |
| Calibration.TemperatureRoundTrip | src/si7005.c:117 | A 14-bit temperature code in the upper bits of a word decodes to code/32 − 50. The code is recovered from the value. |
| Calibration.TemperatureSamples | src/si7005.c:117 | Sample decodings: word 0 gives -50 °C, 3200 gives -25 °C, 3328 gives -24 °C, 0x3200 gives 50 °C. |
| Calibration.HumidityRange | src/si7005.c:119-121 | Every 16-bit word decodes to a humidity between the linearisations of the lowest and highest raw values, which are exactly -7.33272 % and 355.1757153515625 %. |
| Calibration.CompensationBound | src/si7005.c:127 | Compensating any reading at or above -7.34 %, at any temperature at or above -50 °C, gives more than -24. |
| Calibration.CompensatedNeverInvalid | include/si7005.h:33 | A compensated humidity from any two data words is above -24, so it never equals INVALID_VALUE (-1000). |
| Driver.ProbeBus | src/si7005.c:54-58 | A null bus answers false and touches nothing. Otherwise there is exactly one read of the ID register. The chip is reported present exactly when that read gave 0x50. |
| Driver.ModifyConfig | src/si7005.c:84-91 | The accesses are a read of CONFIG and, only if that read succeeded, one write of CONFIG. The result is true exactly when the bus's next byte answer is non-negative and its next acknowledgement is positive. One byte answer is used, and one acknowledgement only after a successful read. The written byte has the `set` bits on, the other `mask` bits off, and every bit outside `mask` as read. |
| Driver.MergedBits | src/si7005.c:89 | `(val & ~mask) \| set` is, bit by bit, "in `set`, or outside `mask` and set in `val`". |
| Driver.StartConversion | src/si7005.c:99-105 | This is a configuration read-modify-write. It succeeds exactly when the CONFIG answer is non-negative and the write is acknowledged. The written byte sets START, sets TEMP exactly for a temperature conversion and FAST exactly for fast mode, and keeps HEAT and the unused bits. |
| Driver.MergedStart | src/si7005.c:100-103 | The start mask and bits give exactly the START/TEMP/FAST settings, and leave the other bits alone. |
| Driver.SetHeaterBus | src/si7005.c:93-97 | A null bus answers false. A failed probe answers false after the ID read alone. After a successful probe there is a configuration read-modify-write. Its CONFIG answer is the bus's second byte answer, and the result is true exactly when that answer is non-negative and the write is acknowledged. The written byte differs from the one read only in HEAT, and HEAT is on exactly when asked. |
| Driver.MergedHeater | src/si7005.c:95-96 | The heater mask and bits change HEAT alone, to the requested state. |
| Driver.IsDataReady | src/si7005.c:107-110 | This is exactly one status read, using one byte answer. The answer is "ready" exactly when bit 0 of the byte read is clear. A failed read reads as "not ready". |
| Driver.ReadData | src/si7005.c:112-124 | This is exactly one read of the data register, using one word answer. INVALID_VALUE is returned exactly when that read failed. Otherwise the value is the temperature decoding or the linearised humidity decoding of the word, and it is not compensated. |
| Driver.FirstReady | src/si7005.c:65-66 | The number of status answers before the first one that reads as ready; all of them when none does. |
| Driver.WaitReady | src/si7005.c:65-66 | The busy-wait performs status polls only. It stops at the first ready answer and uses exactly the status answers up to that one. It never stops exactly when no status answer still to come reads as ready, and the model then records it as stuck once the answers are exhausted. |
| Si7005.ExpectConversion | src/si7005.c:62-67 | Told from the replies alone, a conversion gives a value only when the data word is non-negative, and the value is then its decoding. It gives up only on a failed CONFIG answer, an unacknowledged write or a failed data word. It spins exactly when, after a good start, no later status answer reads as ready. |
| Si7005.ExpectTemp | src/si7005.c:60-68 | Told from the replies alone, a temperature read gives up at once when the ID answer is not 0x50. A value it gives is the temperature of the first data word. |
| Si7005.ExpectRhBody | src/si7005.c:72-81 | Told from the replies alone, a value from the humidity read's body is the humidity of the second data word compensated at the temperature of the first, and never INVALID_VALUE. |
| Si7005.ExpectRh | src/si7005.c:70-82 | Told from the replies alone, a humidity read gives up at once when the ID answer is not 0x50, and otherwise is its body on the remaining replies. |
| Si7005.Measure | src/si7005.c:62-67 | The outcome and the unused replies are the ones `ExpectConversion` gives. A value other than INVALID_VALUE comes exactly when start, wait and data read all succeeded, and it is the decoding of the first data word. INVALID_VALUE comes right after the first failing access: the CONFIG read alone, the CONFIG read and an unacknowledged write, or a complete start, polls up to a ready one and a failed data read. A hang happens only after a successful start. |
| Si7005.StartFailed | src/si7005.c:62-64 | A failed start gives INVALID_VALUE after the configuration accesses alone. |
| Si7005.ConversionStuck | src/si7005.c:65-66 | A successful start whose status answers never read as ready hangs, and the hang is what the replies determine. |
| Si7005.MeasureRead | src/si7005.c:65-67 | A successful start, a wait that ended ready and the data read keep every promise of one conversion. |
| Si7005.ReadAgrees | src/si7005.c:65-67 | The data read after a successful start and a ready poll gives the outcome the replies determine. |
| Si7005.StuckAgrees | src/si7005.c:65-66 | A wait that never ends after a successful start is the hang the replies determine. |
| Si7005.ReadTempBus | src/si7005.c:60-68 | The outcome and the unused replies are the ones `ExpectTemp` gives: a working chip yields the temperature of the first data word. A value other than INVALID_VALUE is returned exactly when the chip answered the probe and one complete temperature conversion followed. INVALID_VALUE comes right after the first failing access: a failed probe alone, or a good probe and a conversion that gave up. A hang happens only in the busy-wait. |
| Si7005.TempMeasured | src/si7005.c:60-68 | A probe that found the chip, followed by a temperature conversion, keeps every promise of the blocking temperature read. |
| Si7005.ReadRhBus | src/si7005.c:70-82 | The outcome and the unused replies are the ones `ExpectRh` gives. A value other than INVALID_VALUE is returned exactly when a probe, a whole blocking temperature read and a humidity conversion all succeeded. It is then the humidity of the second data word compensated at the temperature of the first. INVALID_VALUE comes right after the first failing access, in the probe, the temperature read or the humidity conversion. A hang comes only once the status answers are exhausted: after a probe that found the chip, either the temperature read's conversion or the humidity conversion after a complete temperature read was started and never reported ready. |
| Si7005.RhCompensated | src/si7005.c:70-82 | A probe that found the chip, followed by the humidity read's body, keeps every promise of the blocking humidity read. |
| Si7005.Compensated | src/si7005.c:72-81 | After its own probe, the humidity read runs a whole temperature read, then a humidity conversion, with the outcome and unused replies that `ExpectRhBody` gives. It passes on INVALID_VALUE from either, right after the first failing access, and compensates the humidity with the temperature. It hangs only with the status answers exhausted and the accesses in the shape of `RhBodyHang`: a good probe and a stuck temperature conversion, or a whole temperature read and a stuck humidity conversion. |
| Si7005.TempHung | src/si7005.c:72 | A temperature read that hangs makes the humidity read hang, with the accesses of a good probe and a stuck temperature conversion. |
| Si7005.TempGaveUp | src/si7005.c:73 | A temperature read that returned INVALID_VALUE inside the humidity read makes the humidity read return INVALID_VALUE with no further access. |
| Si7005.RhHung | src/si7005.c:77-78 | A humidity conversion that hangs after a good temperature read makes the humidity read hang, with the accesses split into the whole temperature read and the stuck humidity conversion. |
| Si7005.RhGaveUp | src/si7005.c:74-80 | A failed humidity conversion after a good temperature read makes the humidity read return INVALID_VALUE, right after the failing access. |
| Si7005.RhDone | src/si7005.c:79-81 | A good temperature read and a good humidity conversion make a humidity session, and the result is the compensation of the second word at the temperature of the first. |
| Si7005.RhDoneAgrees | src/si7005.c:79-81 | That result is the one the replies determine. |
| Si7005.Probe | src/si7005.c:38-40 | The default-bus probe is the bus probe on the default bus. |
| Si7005.SetHeater | src/si7005.c:50-52 | The default-bus heater switch is the bus variant on the default bus. |
| Si7005.ReadTemp | src/si7005.c:46-48 | The default-bus temperature read keeps every promise of the bus variant. |
| Si7005.ReadRh | src/si7005.c:42-44 | The default-bus humidity read keeps every promise of the bus variant. |
| Properties.ConversionShape | src/si7005.c:62-67 | A complete conversion writes CONFIG with START set, TEMP selecting its kind and FAST clear. Its data word is read right after a status poll that reported ready, and no data word is read before. |
| Properties.TempSessionShape | src/si7005.c:60-68 | A complete temperature read starts a conversion with TEMP set. Its only data read is its last access, and that read succeeded. |
| Properties.FirstDataRead | src/si7005.c:60-68 | The temperature read that opens an access sequence ends exactly at its first data read. |
| Properties.RhSplitUnique | src/si7005.c:72-79 | A humidity read's accesses split in only one way into the temperature read and the humidity conversion. |
| Properties.RhSessionOrder | include/si7005.h:41-46 | In a successful humidity read, the chip is probed twice, and the temperature conversion is started and read before the humidity conversion is started. Those are the only two data reads, and each follows a status poll that reported ready. |
| Properties.NoPollAfterFailedStart | src/si7005.c:62-64 | When the CONFIG answer fails or the write is not acknowledged, the conversion returns INVALID_VALUE after one or two accesses, all to CONFIG; no status poll and no data read follow. |
| Properties.WorkingChipTemperature | src/si7005.c:60-68 | When the ID answer is 0x50, the CONFIG read succeeds, the write is acknowledged, a later status answer reads as ready and the data word is read, the blocking temperature read returns the temperature of that word. |
| Properties.WorkingChipHumidity | src/si7005.c:70-82 | When the chip answers every access of both conversions, the blocking humidity read returns the humidity of the second data word compensated at the temperature of the first. |
| Properties.HumidityFromReplies | src/si7005.c:70-82 | On the replies of a working chip, the reference humidity outcome is that compensated value. |
| Properties.TempPartWorks | src/si7005.c:72 | On those replies, the temperature read inside gives the temperature of the first word and leaves the replies of the humidity conversion. |
| Properties.HumidityPartWorks | src/si7005.c:74-79 | On those replies, the humidity conversion gives a value. |
| Properties.ConversionWorks | src/si7005.c:62-67 | A conversion whose replies all succeed gives the decoding of its data word, and leaves the replies after the first ready answer. |
| Properties.WaitSample | src/si7005.c:65-66 | Sample: a "not ready" answer followed by a ready one makes exactly two polls. |

## Left out

- `mgos_si7005_init` (src/si7005.c:131-133) always returns true and has no effect, so it is not modelled.
- The transport's implementation is not part of this model. This covers bus arbitration, clock stretching and the mapping of bus errors to -1. The event trace also omits the device address 0x40, which every access uses.
- The driver computes in single-precision floats, and the model computes in exact rationals. Rounding is not modelled, and neither is the widening to double that the literal `0.1973` causes in `si7005_rh_tcomp`. The bounds proved hold for the exact formulas.
- The 35 ms conversion time, and any concurrent use of the bus by other code, are not modelled.
- Driver.StartConversion, Driver.IsDataReady and Driver.ReadData take a bus that is never null. The C functions pass a null pointer on to the transport, whose behaviour is not part of this model.
- Driver.WaitReady: a real bus can answer "not ready" for ever. The model represents that only through a finite answer stream whose remaining answers all read as not ready, with the poll that finds it exhausted as the last recorded access.
- Registers.ReadyCode: `(ret & 1) == 0` on a two's-complement `int` is stated as the parity test `ret % 2 == 0`, which agrees with it for every 32-bit value.
