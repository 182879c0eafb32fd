# ErriezDHT22 driver core, modelled in Dafny

This project models the `DHT22` class of the ErriezDHT22 Arduino library
(`src/DHT22.cpp`, `src/DHT22.h`) and proves properties of it. The library
reads an AM2302/DHT22 temperature and humidity sensor over a one-wire data pin.

- **Rate limiter.** A protocol run may start only when 2000 ms or more have
  passed since the last one started, measured on the wrapping 32-bit
  `millis()` clock. Inside that interval the cached status is returned.
- **Protocol run.** After the wake signal the driver measures two
  acknowledgment pulses. It then captures 80 pulse widths, a low and a high
  pulse per bit. It packs them most significant bit first into five bytes,
  stopping at the first timed-out width, and checks the parity byte.
- **Pulse measurement.** The pin is polled in a counting loop. It gives up
  with 0 once the count would pass `_maxCycles`.
- **Conversions.** Temperature is sign and magnitude: bit 7 of byte 2 is the
  sign. Humidity is the 16-bit big-endian value read as `int16_t`. Both give
  `~0` (−1) on failure.

Files:

- `types.dfy`: the machine types and the header's constants.
- `timing.dfy`: the wrapping clock and `available()`.
- `pulse.dfy`: the data pin and the measurement, handshake and capture loops,
  with a waveform encoder for the sensor's side.
- `decode.dfy`: bit packing and parity, with the payload encoder.
- `values.dfy`: the temperature and humidity conversions.
- `dht22.dfy`: the `DHT22` class, plus `Protocol`, the whole run as a
  function, and the lemmas about it.

How the model stands in for the hardware:

- The data pin is a recorded waveform `line: seq<Level>` read from a cursor
  `pos`. Each `digitalRead` uses up one sample. Past the end of the recording
  the line reads `High`, the pulled-up idle level. Every operation that
  samples the pin returns the cursor where it stopped.
- `millis()` readings are parameters. `readSensorData` reads the clock twice,
  once inside `available()` (`now1`) and once for the timestamp (`now2`).
- The bit operations are written as integer arithmetic:
  - `& 0x7F` is `% 0x80`;
  - `<< 8` is `* 0x100`;
  - `|` of disjoint bits is `+`;
  - `<<= 1` on a `uint8_t` is `* 2 % 0x100`, and `<<= 1` then `|= 1` is
    that plus 1 (proved on `bv8` by `Driver.ShiftIsDoubling` and
    `Driver.ShiftOrOneIsDoublingPlusOne`);
  - `& 0xFF` of a non-negative sum is `% 0x100`.

The model follows the code in two places where the code is weaker than a
description of it might suggest:

- Humidity is an unsigned quantity, but `readHumidity` returns the 16-bit
  value as `int16_t`. A raw value from 0x8000 up therefore comes back
  negative (`Values.ToInt16`).
- The error value `~0` is not set apart from valid readings. It is also the
  reading of the temperature bytes `80 01` (−0.1 °C) and of the humidity
  bytes `FF FF` (`Values.SentinelCollisions`).

## Model

| member | source | states |
|---|---|---|
| Timing.Elapsed | src/DHT22.cpp:88 | `millis() - _lastMeasurementTimestamp` in 32-bit arithmetic is the offset that leads from the timestamp to `now` on the wrapping clock |
| Timing.ElapsedUnique | src/DHT22.cpp:88 | that offset is the only one below 2^32 |
| Timing.Due | src/DHT22.cpp:86-95 | `available()` is true exactly when `now` is not among the 2000 clock readings starting at the timestamp |
| Timing.NotDueWithinInterval | src/DHT22.cpp:86-95 | no run is allowed within 2000 ms of the last one, including across the wrap of the clock |
| Timing.DueAfterInterval | src/DHT22.cpp:86-95 | a run is allowed again once 2000 ms or more, and less than a clock period, have passed |
| Timing.DueAfterBegin | src/DHT22.cpp:67-75 | after `begin()` a run is allowed at `now` exactly when `now < 2^32 - 2000`, and the elapsed time is then `now + 2000` |
| Driver.DHT22.constructor | src/DHT22.cpp:37-52 | records pin and timeout; timestamp 0, status false, buffers cleared; the class invariant holds |
| Driver.DHT22.Available | src/DHT22.cpp:86-95 | the method answers `Due` for the stored timestamp: true exactly when `now` is not among the 2000 readings after `_lastMeasurementTimestamp`; it changes nothing |
| Driver.DHT22.Begin | src/DHT22.cpp:67-75 | stores the back-dated timestamp `(uint32_t)-2000`, after which `Available(now)` holds exactly for `now < 2^32 - 2000`; the status is unchanged |
| Pulse.Sample | src/DHT22.cpp:296 | `digitalRead` as the recorded sample at the cursor; past the end of the recording the line reads High, the level the `INPUT_PULLUP` of lines 70 and 210 holds it at |
| Pulse.RunLength | src/DHT22.cpp:296 | the number of consecutive samples at `level` is at most the cap |
| Pulse.RunLengthMeaning | src/DHT22.cpp:296 | every counted sample shows `level`, and the one after a run that stopped before the cap does not |
| Pulse.RunLengthUnique | src/DHT22.cpp:296 | any count with those two properties is the run length |
| Pulse.PulseWidth | src/DHT22.cpp:283-305 | the width never exceeds `_maxCycles`; the read that ends the loop is consumed, and no more than `_maxCycles + 1` samples are read |
| Pulse.PulseWidthMeaning | src/DHT22.cpp:296-304 | a nonzero width `n` is exactly `n` samples at `level` followed by the other level, ending after `n + 1` reads; 0 means the first sample already differed or the level lasted `_maxCycles + 1` samples |
| Pulse.PulseMeasured | src/DHT22.cpp:296-304 | a pulse of `n` samples, `1 <= n <= _maxCycles`, is measured as `n` after `n + 1` reads |
| Pulse.PulseTimesOut | src/DHT22.cpp:297-300 | a level that lasts `_maxCycles + 1` samples gives 0 after `_maxCycles + 1` reads |
| Pulse.PulseMissing | src/DHT22.cpp:296 | a pin that is not at `level` gives 0 after one read |
| Driver.DHT22.MeasurePulseWidth | src/DHT22.cpp:283-305 | the polling loop (portable branch) returns the width and the cursor that `PulseWidth` specifies |
| Pulse.Start | src/DHT22.cpp:213-221 | the handshake's two checks: it moves the cursor forward by at most two timed-out pulses, and success means both acknowledgment pulses were measured, at least two reads each |
| Driver.DHT22.GenerateStart | src/DHT22.cpp:213-224 | fails when the low acknowledgment pulse reads 0 (absent or timed out), without measuring the high one; otherwise succeeds exactly when the high pulse is seen too (`Start`) |
| Pulse.Capture | src/DHT22.cpp:242-245 | after `bits` iterations, `2 * bits` widths, taken alternately for the low and the high pulse |
| Pulse.CaptureOrder | src/DHT22.cpp:242-245 | each width takes at least one read, so the capture moves forward; every width is at most `_maxCycles` |
| Pulse.CaptureStep | src/DHT22.cpp:243-244 | one iteration appends the low and the high width just measured |
| Pulse.CaptureNext | src/DHT22.cpp:243-244 | one iteration appends whatever the two measurements return, timeouts included |
| Pulse.SegmentMeasured | src/DHT22.cpp:283-305 | the driver measures such a pulse, wherever it sits in the line, as exactly `w` and resumes right after the edge |
| Pulse.CaptureBitWave | src/DHT22.cpp:242-245 | round trip: a waveform built from any even list of widths in `1.._maxCycles` is captured back as exactly that list |
| Pulse.FrameHandshake | src/DHT22.cpp:213-224 | two acknowledgment pulses of measurable width pass the handshake, whatever follows |
| Pulse.ReadSensorFrame | src/DHT22.cpp:213-245 | a full sensor answer passes the handshake, and the capture after it returns the data widths |
| Decode.BitOf | src/DHT22.cpp:268 | a data bit is 1 exactly when its high width is greater than its low width |
| Decode.PairValid | src/DHT22.cpp:259 | a bit is usable exactly when neither of its two widths is the timeout value 0 |
| Decode.FirstInvalid | src/DHT22.cpp:254-261 | the decode loop's stopping point: at most 40, every bit before it usable, and the bit at it (when below 40) not |
| Decode.FirstInvalidFrom | src/DHT22.cpp:254-261 | the decode loop stops at or after bit `i`, and by bit 40 |
| Decode.FirstInvalidFromMeaning | src/DHT22.cpp:254-261 | every bit before the stopping point has two nonzero widths, and an early stop is at a bit with a zero width |
| Decode.FirstInvalidIs | src/DHT22.cpp:254-261 | the stopping point is the first bit with a zero width, or 40 |
| Decode.AllValidIff | src/DHT22.cpp:259-261 | `readBytes` returns true exactly when none of the 80 widths is zero |
| Decode.Packed | src/DHT22.cpp:251-271 | the buffer the decode loop fills, from the cleared state, always has five bytes |
| Decode.DecodeBytes | src/DHT22.cpp:254-273 | the five payload bytes, byte `k` the sum over m < 8 of bit `8k + m` times `2^(7 - m)`; the loop's buffer equals it when all 40 bits are usable (`PackedComplete`) |
| Decode.PackedStep | src/DHT22.cpp:264-270 | storing bit `i` changes byte `i / 8` only: shift left by one and set bit 0 when the high pulse was longer |
| Decode.PackedHoldsStoredBits | src/DHT22.cpp:251-271 | after `n` bits, byte `k` holds the value of the bits of it received so far: no bit is lost to the 8-bit shift, later bytes are still 0 |
| Decode.ShiftInBit | src/DHT22.cpp:267-270 | shifting a byte that holds fewer than 8 bits and setting bit 0 appends one bit to the value |
| Decode.PackedComplete | src/DHT22.cpp:251-273 | after all 40 bits the buffer holds the five bytes, each read most significant bit first |
| Decode.PrefixValue | src/DHT22.cpp:267-270 | the value of the first `m` bits of a byte is below 2^m |
| Decode.PrefixValueWeighted | src/DHT22.cpp:267-270 | that value, shifted by the bits still to come, is the weighted sum of the bits received |
| Decode.ByteValueIsWeightedSum | src/DHT22.cpp:254-271 | `_data[k]` is the sum over m < 8 of bit `8k + m` times `2^(7 - m)` |
| Decode.PayloadWidths | src/DHT22.cpp:254-271 | the sensor's side: 80 widths for five bytes, with the high pulse of a 1 bit longer than its low pulse |
| Decode.PayloadBit | src/DHT22.cpp:268 | the decoder reads a longer high pulse as 1 and one no longer than the low pulse as 0 |
| Decode.PrefixOfByte | src/DHT22.cpp:267-270 | reading the bits of a byte most significant first gives, after `m` bits, the byte without its low `8 - m` bits |
| Decode.DecodePayload | src/DHT22.cpp:236-274 | round trip: widths encoded from any five bytes have no timeout and decode back to those bytes |
| Decode.Checksum | src/DHT22.cpp:179 | the parity byte is congruent modulo 256 to the sum of the first four bytes, as `& 0xFF` of that sum makes it |
| Decode.ParityOk | src/DHT22.cpp:179 | the parity check passes exactly when the fifth byte is the checksum of the first four |
| Decode.ExampleChecksums | src/DHT22.cpp:179 | worked examples: `02 8D 00 E7 76` passes; `01 90 00 C8` is completed with `59` |
| Decode.WithChecksum | src/DHT22.cpp:179 | a four-byte reading completed with its checksum passes the parity check |
| Decode.SingleByteErrorDetected | src/DHT22.cpp:179-182 | replacing any one of the five bytes of a payload that passes the parity check by a different byte makes the check fail |
| Decode.SingleBitFlipDetected | src/DHT22.cpp:179-182 | every single-bit error in the 40 bits is detected |
| Driver.DHT22.CapturePulses | src/DHT22.cpp:242-245 | the first loop of `readBytes` leaves `cycles` equal to `Capture(…, 40)` and the cursor after it |
| Driver.DHT22.DecodePulses | src/DHT22.cpp:254-273 | the second loop leaves `_data` as `Packed` up to the first zero width and returns true exactly when there is none |
| Driver.DHT22.ReadBytes | src/DHT22.cpp:236-274 | `cycles` holds the 80 captured widths, `_data` is cleared and filled up to the first zero width, and the result is true iff there is none |
| Driver.Protocol | src/DHT22.cpp:160-187 | the whole run as a function; both buffers keep their sizes |
| Driver.ProtocolSucceedsIff | src/DHT22.cpp:167-187 | a run succeeds exactly when both acknowledgment pulses were seen, none of the 80 widths timed out and the parity matches |
| Driver.ProtocolNoHandshake | src/DHT22.cpp:167-170 | a failed handshake ends the run with both buffers untouched |
| Driver.ProtocolAfterHandshake | src/DHT22.cpp:173-187 | after a handshake the outcome is the decode of the captured widths and the parity check |
| Driver.ProtocolOnFrame | src/DHT22.cpp:167-187 | on a frame whose widths are all measurable, the buffers end as the decode of exactly those widths |
| Driver.PayloadWidthsBounded | src/DHT22.cpp:259 | every width of an encoded payload is nonzero and within the timeout |
| Driver.ProtocolOnSensorFrame | src/DHT22.cpp:153-188 | for a sensor that sends five bytes with well-formed pulses, the run recovers the bytes into `_data` and succeeds exactly when their checksum matches |
| Driver.ProtocolAcceptsChecksummed | src/DHT22.cpp:153-188 | a reading sent with its checksum is accepted and stored |
| Driver.ProtocolNoSensor | src/DHT22.cpp:213-216 | with no sensor pulling the line low, the run fails after one read, touching neither buffer |
| Driver.ShiftClearsBitZero | src/DHT22.cpp:267-269 | after the left shift (doubling modulo 256) bit 0 is clear, so setting it (adding 1) cannot overflow the byte |
| Driver.ShiftIsDoubling | src/DHT22.cpp:267 | `_data[i / 8] <<= 1` on a `uint8_t`, computed on `bv8`, is doubling modulo 256 |
| Driver.ShiftOrOneIsDoublingPlusOne | src/DHT22.cpp:267-269 | the shift followed by setting bit 0, computed on `bv8`, is doubling modulo 256 plus 1 |
| Driver.DHT22.ReadSensorData | src/DHT22.cpp:153-188 | within the interval: cached status, nothing changes. Otherwise: timestamp `now2`, status false until the parity check passes, and the buffers, result and cursor given by `Protocol`. The result is always the stored status, and the invariant "status true implies parity holds" is kept |
| Values.Magnitude | src/DHT22.cpp:113 | the low 7 bits of `d2` followed by the 8 bits of `d3` fit in 15 bits |
| Values.Temperature | src/DHT22.cpp:113-116 | sign-magnitude temperature in `-32767..32767`; negative only with the sign bit set, positive only without it |
| Values.TemperatureMagnitude | src/DHT22.cpp:113-116 | the absolute value of the temperature is the 15-bit magnitude field |
| Values.EncodeTemperature | src/DHT22.cpp:113-116 | the sensor's encoding sets the sign bit exactly for negative temperatures |
| Values.TemperatureRoundTrip | src/DHT22.cpp:113-116 | every temperature in `-32767..32767` reads back as itself |
| Values.TemperatureBytesRoundTrip | src/DHT22.cpp:113-116 | every byte pair except negative zero `80 00` is the encoding of its reading; negative zero reads as 0 |
| Values.ToInt16 | src/DHT22.cpp:135 | conversion to `int16_t` keeps the low 16 bits and is negative exactly from 0x8000 up |
| Values.Humidity | src/DHT22.cpp:135 | humidity is congruent modulo 2^16 to the big-endian value `d0 * 256 + d1` |
| Values.EncodeHumidity | src/DHT22.cpp:135 | the sensor's side: the two bytes are the big-endian 16-bit pattern of the `int16_t` (its value modulo 2^16) |
| Values.HumidityRoundTrip | src/DHT22.cpp:135 | every `int16_t` is the humidity of its 16-bit encoding |
| Values.HumidityBytesRoundTrip | src/DHT22.cpp:135 | every byte pair is the encoding of its humidity: the conversion is a bijection |
| Values.SentinelCollisions | src/DHT22.cpp:108-119 | the valid readings −0.1 °C (`80 01`) and humidity `FF FF` equal the error value `~0` |
| Values.ExampleReadings | src/DHT22.cpp:106-139 | worked examples: bytes `01 90 00 C8` give 40.0 % and 20.0 °C; sign bit set gives −20.0 °C; `02 8D 00 E7` give 65.3 % and 23.1 °C |
| Driver.DHT22.ReadTemperature | src/DHT22.cpp:106-120 | the run of `readSensorData`, then the temperature of `_data[2..3]` if the (current or cached) status is true, else `~0` |
| Driver.DHT22.ReadHumidity | src/DHT22.cpp:128-139 | the run of `readSensorData`, then the humidity of `_data[0..1]` if the status is true, else `~0` |

## Left out

- Pin electrical sequencing (`src/DHT22.cpp:70` and `199-211`: `pinMode`, including the `INPUT_PULLUP` of `begin()`, `digitalWrite`, `delay`): the wake signal is not modelled. `GenerateStart` starts at the first sample after it. The pull-up is modelled only through `Pulse.Sample`, which reads High past the end of the recording.
- The AVR fast path (`src/DHT22.cpp:45-48`, `287-294`; `src/DHT22.h:85-90`): it reads a port register directly but counts and times out the same way as the portable loop, which is the one modelled.
- `noInterrupts()` / `interrupts()` (`src/DHT22.cpp:239`, `248`): there is no concurrency in the model.
- `microsecondsToClockCycles(1000)` (`src/DHT22.cpp:51`): it depends on the board clock. The timeout is a constructor parameter of any 32-bit value.
- What a cycle count means as a duration in microseconds: widths are counts of polling iterations.
- `DEBUG_PRINTLN` output: it has no effect on state.
- `unsigned long` wider than 32 bits. The timestamp is modelled as 32-bit, as on AVR and 32-bit ARM targets.
- Driver.DHT22.constructor: the source sets only `_pin` and `_maxCycles`. The model starts the other fields at zero, as for a global object. For a local object they would be indeterminate.
- `millis()` and `digitalRead()` are not modelled as functions. Their readings are parameters: the clock readings `now1`, `now2` and the waveform `line`.
