/** The `DHT22` driver object: its rate limiter, its cached status, the
    pulse-width buffer and the five payload bytes, updated in place by the
    protocol run. The clock (`millis()`) is given to each operation as the
    readings it takes; the data pin is a recorded waveform `line` read from
    the cursor `pos`, and every operation that samples it returns where it
    stopped. */
module Driver {
  import opened Types
  import opened Timing
  import opened Pulse
  import opened Decode
  import opened Values

  /** What one protocol run leaves behind: its status, the two buffers and
      the pin cursor. */
  datatype Outcome = Outcome(ok: bool, cycles: seq<U32>, data: seq<Byte>, next: nat)

  /** One protocol run, from the start handshake to the parity check, on
      buffers that held `cycles0` and `data0`. A failed handshake leaves both
      buffers as they were; otherwise all 80 widths are captured, the bits
      are packed up to the first zero width, and the run succeeds only if
      there was none and the parity matches. */
  function Protocol(line: seq<Level>, pos: nat, maxCycles: U32, cycles0: seq<U32>, data0: seq<Byte>): (o: Outcome)
    requires |cycles0| == NumCycles && |data0| == NumDataBytes
    ensures |o.cycles| == NumCycles && |o.data| == NumDataBytes
  {
    var s := Start(line, pos, maxCycles);
    if !s.ok then Outcome(false, cycles0, data0, s.next)
    else
      var cap := Capture(line, s.next, maxCycles, NumDataBits);
      var n := FirstInvalid(cap.widths);
      var d := Packed(cap.widths, n);
      Outcome(n == NumDataBits && ParityOk(d), cap.widths, d, cap.next)
  }

  /** A run succeeds exactly when both handshake pulses were seen, none of
      the 80 bit pulses timed out and the payload's parity matches; a
      successful run always leaves a payload that passes the parity check. */
  lemma ProtocolSucceedsIff(line: seq<Level>, pos: nat, maxCycles: U32, cycles0: seq<U32>, data0: seq<Byte>)
    requires |cycles0| == NumCycles && |data0| == NumDataBytes
    ensures var o := Protocol(line, pos, maxCycles, cycles0, data0);
            o.ok <==> && Start(line, pos, maxCycles).ok
                      && (forall j :: 0 <= j < NumCycles ==> o.cycles[j] != 0)
                      && ParityOk(o.data)
  {
    var s := Start(line, pos, maxCycles);
    if s.ok {
      AllValidIff(Capture(line, s.next, maxCycles, NumDataBits).widths);
    }
  }

  /** On a sensor that answers the handshake and then sends `bytes` with
      well-formed pulses, the run recovers `bytes` into the data buffer, and
      it succeeds exactly when their checksum matches. */
  lemma ProtocolOnSensorFrame(
      ackLow: U32, ackHigh: U32, bytes: seq<Byte>, low: U32, zeroHigh: U32, oneHigh: U32,
      post: seq<Level>, maxCycles: U32, cycles0: seq<U32>, data0: seq<Byte>)
    requires |bytes| == NumDataBytes && 1 <= zeroHigh <= low < oneHigh <= maxCycles
    requires 1 <= ackLow <= maxCycles && 1 <= ackHigh <= maxCycles
    requires |cycles0| == NumCycles && |data0| == NumDataBytes
    ensures var ws := PayloadWidths(bytes, low, zeroHigh, oneHigh);
            var line := SensorFrame(ackLow, ackHigh, ws) + post;
            var o := Protocol(line, 0, maxCycles, cycles0, data0);
            && o.cycles == ws
            && o.data == bytes
            && o.next == |SensorFrame(ackLow, ackHigh, ws)|
            && (o.ok <==> ParityOk(bytes))
  {
    var ws := PayloadWidths(bytes, low, zeroHigh, oneHigh);
    PayloadWidthsBounded(bytes, low, zeroHigh, oneHigh, maxCycles);
    ProtocolOnFrame(ackLow, ackHigh, ws, post, maxCycles, cycles0, data0);
    DecodePayload(bytes, low, zeroHigh, oneHigh);
  }

  /** A frame whose widths are all measurable is captured exactly; the
      outcome is then the decode of those widths. */
  lemma ProtocolOnFrame(ackLow: U32, ackHigh: U32, ws: seq<U32>, post: seq<Level>, maxCycles: U32,
                        cycles0: seq<U32>, data0: seq<Byte>)
    requires 1 <= ackLow <= maxCycles && 1 <= ackHigh <= maxCycles
    requires |ws| == NumCycles && forall j :: 0 <= j < |ws| ==> 1 <= ws[j] <= maxCycles
    requires |cycles0| == NumCycles && |data0| == NumDataBytes
    ensures var n := FirstInvalid(ws);
            Protocol(SensorFrame(ackLow, ackHigh, ws) + post, 0, maxCycles, cycles0, data0)
            == Outcome(n == NumDataBits && ParityOk(Packed(ws, n)), ws, Packed(ws, n),
                       |SensorFrame(ackLow, ackHigh, ws)|)
  {
    var line := SensorFrame(ackLow, ackHigh, ws) + post;
    var q, next := ackLow + ackHigh + 2, |SensorFrame(ackLow, ackHigh, ws)|;
    ReadSensorFrame(ackLow, ackHigh, ws, post, maxCycles);
    assert Start(line, 0, maxCycles) == Started(true, q);
    assert Capture(line, q, maxCycles, NumDataBits) == Captured(ws, next);
    ProtocolAfterHandshake(line, 0, maxCycles, cycles0, data0, q, ws, next);
  }

  /** A failed handshake ends the run with both buffers untouched. */
  lemma ProtocolNoHandshake(line: seq<Level>, pos: nat, maxCycles: U32, cycles0: seq<U32>, data0: seq<Byte>)
    requires |cycles0| == NumCycles && |data0| == NumDataBytes
    requires !Start(line, pos, maxCycles).ok
    ensures Protocol(line, pos, maxCycles, cycles0, data0)
            == Outcome(false, cycles0, data0, Start(line, pos, maxCycles).next)
  {
  }

  /** Every width of such a frame is a pulse the driver can measure. */
  lemma PayloadWidthsBounded(bytes: seq<Byte>, low: U32, zeroHigh: U32, oneHigh: U32, maxCycles: U32)
    requires |bytes| == NumDataBytes && 1 <= zeroHigh <= low < oneHigh <= maxCycles
    ensures var ws := PayloadWidths(bytes, low, zeroHigh, oneHigh);
            forall j :: 0 <= j < |ws| ==> 1 <= ws[j] <= maxCycles
  {
  }

  /** The outcome of a run once the handshake has succeeded and the capture
      is known. */
  lemma ProtocolAfterHandshake(line: seq<Level>, pos: nat, maxCycles: U32, cycles0: seq<U32>, data0: seq<Byte>,
                               q: nat, ws: seq<U32>, next: nat)
    requires |cycles0| == NumCycles && |data0| == NumDataBytes && |ws| == NumCycles
    requires Start(line, pos, maxCycles) == Started(true, q)
    requires Capture(line, q, maxCycles, NumDataBits) == Captured(ws, next)
    ensures var n := FirstInvalid(ws);
            Protocol(line, pos, maxCycles, cycles0, data0)
            == Outcome(n == NumDataBits && ParityOk(Packed(ws, n)), ws, Packed(ws, n), next)
  {
  }

  /** In particular a reading sent with its checksum is accepted. */
  lemma ProtocolAcceptsChecksummed(
      ackLow: U32, ackHigh: U32, reading: seq<Byte>, low: U32, zeroHigh: U32, oneHigh: U32,
      post: seq<Level>, maxCycles: U32, cycles0: seq<U32>, data0: seq<Byte>)
    requires |reading| == 4 && 1 <= zeroHigh <= low < oneHigh <= maxCycles
    requires 1 <= ackLow <= maxCycles && 1 <= ackHigh <= maxCycles
    requires |cycles0| == NumCycles && |data0| == NumDataBytes
    ensures var ws := PayloadWidths(WithChecksum(reading), low, zeroHigh, oneHigh);
            var o := Protocol(SensorFrame(ackLow, ackHigh, ws) + post, 0, maxCycles, cycles0, data0);
            o.ok && o.data[..4] == reading
  {
    ProtocolOnSensorFrame(ackLow, ackHigh, WithChecksum(reading), low, zeroHigh, oneHigh,
                          post, maxCycles, cycles0, data0);
  }

  /** A sensor that does not pull the line low answers no handshake: the run
      fails after one sample and touches neither buffer. */
  lemma ProtocolNoSensor(line: seq<Level>, maxCycles: U32, cycles0: seq<U32>, data0: seq<Byte>)
    requires |cycles0| == NumCycles && |data0| == NumDataBytes
    requires Sample(line, 0) == High
    ensures Protocol(line, 0, maxCycles, cycles0, data0) == Outcome(false, cycles0, data0, 1)
  {
    PulseMissing(line, 0, Low, maxCycles);
  }

  /** `<<= 1` on a byte leaves bit 0 clear, so the following `|= 1` adds 1
      and cannot overflow. */
  lemma ShiftClearsBitZero(b: Byte)
    ensures ((b * 2) % 0x100) % 2 == 0
    ensures (b * 2) % 0x100 + 1 < 0x100
  {
  }

  /** `<<= 1` on a `uint8_t` is doubling modulo 256. */
  lemma ShiftIsDoubling(b: Byte)
    ensures ((b as bv8) << 1) as int == (b * 2) % 0x100
  {
  }

  /** `<<= 1` followed by `|= 1` is doubling modulo 256 plus 1. */
  lemma ShiftOrOneIsDoublingPlusOne(b: Byte)
    ensures (((b as bv8) << 1) | 1) as int == (b * 2) % 0x100 + 1
  {
  }

  class DHT22 {
    const pin: Byte
    /** The timeout of one pulse measurement, in polling iterations. */
    const maxCycles: U32
    var lastMeasurementTimestamp: U32
    var statusLastMeasurement: bool
    const cycles: array<U32>
    const data: array<Byte>

    /** The buffers have their declared sizes, and a successful status always
        comes with a payload that passes the parity check. */
    ghost predicate Valid()
      reads this, data
    {
      && cycles.Length == NumCycles
      && data.Length == NumDataBytes
      && (statusLastMeasurement ==> ParityOk(data[..]))
    }

    /** The object as a global `DHT22` starts: fields that the constructor
        does not set are zero. */
    constructor(pin: Byte, maxCycles: U32)
      ensures Valid()
      ensures this.pin == pin && this.maxCycles == maxCycles
      ensures lastMeasurementTimestamp == 0 && !statusLastMeasurement
      ensures fresh(cycles) && fresh(data)
      ensures cycles[..] == seq(NumCycles, _ => 0) && data[..] == seq(NumDataBytes, _ => 0)
    {
      this.pin := pin;
      this.maxCycles := maxCycles;
      lastMeasurementTimestamp := 0;
      statusLastMeasurement := false;
      cycles := new U32[NumCycles](_ => 0);
      data := new Byte[NumDataBytes](_ => 0);
    }

    /** `begin()`: back-date the last run by the minimum interval so that a
        run is due straight away. */
    method Begin()
      requires Valid()
      modifies this
      ensures Valid()
      ensures lastMeasurementTimestamp == BeginTimestamp
      ensures statusLastMeasurement == old(statusLastMeasurement)
      ensures forall now: U32 :: Available(now) <==> now < TwoTo32 - MinReadInterval
    {
      lastMeasurementTimestamp := BeginTimestamp;
      forall now: U32
        ensures Available(now) <==> now < TwoTo32 - MinReadInterval
      {
        DueAfterBegin(now);
      }
    }

    /** `available()` at the clock reading `now`. */
    predicate Available(now: U32)
      reads this
      ensures Available(now) <==> forall d :: 0 <= d < MinReadInterval ==> WrapAdd(lastMeasurementTimestamp, d) != now
    {
      Due(now, lastMeasurementTimestamp)
    }

    /** `measurePulseWidth(level)`: count the samples that still show
        `level`, giving up with 0 once the count would pass `maxCycles`. */
    method MeasurePulseWidth(level: Level, line: seq<Level>, pos: nat) returns (width: U32, next: nat)
      ensures Measured(width, next) == PulseWidth(line, pos, level, maxCycles)
    {
      var count: U32 := 0;
      var sample := Sample(line, pos);
      next := pos + 1;
      while sample == level
        invariant count <= maxCycles && next == pos + count + 1
        invariant sample == Sample(line, pos + count)
        invariant forall k :: pos <= k < pos + count ==> Sample(line, k) == level
        decreases maxCycles - count
      {
        if count >= maxCycles {
          PulseTimesOut(line, pos, level, maxCycles);
          return 0, next;
        }
        count := count + 1;
        sample := Sample(line, next);
        next := next + 1;
      }
      if count == 0 {
        PulseMissing(line, pos, level, maxCycles);
      } else {
        PulseMeasured(line, pos, level, maxCycles, count);
      }
      width := count;
    }

    /** The part of `generateStart()` after the wake signal: the sensor's low
        and high acknowledgment pulses must both be seen. */
    method GenerateStart(line: seq<Level>, pos: nat) returns (ok: bool, next: nat)
      ensures Started(ok, next) == Start(line, pos, maxCycles)
    {
      var low, afterLow := MeasurePulseWidth(Low, line, pos);
      if low == 0 {
        return false, afterLow;
      }
      var high, afterHigh := MeasurePulseWidth(High, line, afterLow);
      if high == 0 {
        return false, afterHigh;
      }
      return true, afterHigh;
    }

    /** `readBytes()`: capture all 80 pulse widths, clear the payload, then
        shift in one bit per pair of widths, stopping at the first zero. */
    method ReadBytes(line: seq<Level>, pos: nat) returns (ok: bool, next: nat)
      requires Valid()
      modifies cycles, data
      ensures cycles.Length == NumCycles && data.Length == NumDataBytes
      ensures var cap := Capture(line, pos, maxCycles, NumDataBits);
              && cycles[..] == cap.widths
              && next == cap.next
              && data[..] == Packed(cap.widths, FirstInvalid(cap.widths))
              && (ok <==> FirstInvalid(cap.widths) == NumDataBits)
    {
      next := CapturePulses(line, pos);
      forall k | 0 <= k < NumDataBytes {
        data[k] := 0;
      }
      assert data[..] == Packed(cycles[..], 0);
      ok := DecodePulses();
    }

    /** The first loop of `readBytes()`: a low and a high pulse per bit. */
    method CapturePulses(line: seq<Level>, pos: nat) returns (next: nat)
      requires cycles.Length == NumCycles
      modifies cycles
      ensures var cap := Capture(line, pos, maxCycles, NumDataBits);
              cycles[..] == cap.widths && next == cap.next
    {
      var i := 0;
      ghost var bits := 0;
      next := pos;
      while i < NumCycles
        invariant i == 2 * bits && i <= NumCycles
        invariant Capture(line, pos, maxCycles, bits) == Captured(cycles[..i], next)
      {
        ghost var before := cycles[..i];
        var low, afterLow := MeasurePulseWidth(Low, line, next);
        cycles[i] := low;
        var high, afterHigh := MeasurePulseWidth(High, line, afterLow);
        cycles[i + 1] := high;
        CaptureNext(line, pos, maxCycles, bits, before, next, low, afterLow, high, afterHigh);
        assert cycles[..i + 2] == before + [low, high];
        next := afterHigh;
        i, bits := i + 2, bits + 1;
      }
      assert cycles[..] == cycles[..NumCycles];
    }

    /** The second loop of `readBytes()`, on a cleared payload. */
    method DecodePulses() returns (ok: bool)
      requires cycles.Length == NumCycles && data.Length == NumDataBytes
      requires data[..] == Packed(cycles[..], 0)
      modifies data
      ensures data[..] == Packed(cycles[..], FirstInvalid(cycles[..]))
      ensures ok <==> FirstInvalid(cycles[..]) == NumDataBits
    {
      ghost var c := cycles[..];
      var bit := 0;
      while bit < NumDataBits
        invariant bit <= NumDataBits
        invariant cycles[..] == c
        invariant forall j :: 0 <= j < bit ==> PairValid(c, j)
        invariant data[..] == Packed(c, bit)
      {
        var lowCycles, highCycles := cycles[2 * bit], cycles[2 * bit + 1];
        if lowCycles == 0 || highCycles == 0 {
          FirstInvalidIs(c, bit);
          return false;
        }
        var byteIndex := bit / 8;
        ghost var before := data[..];
        data[byteIndex] := (data[byteIndex] as int * 2) % 0x100;
        if highCycles > lowCycles {
          ShiftClearsBitZero(before[byteIndex]);
          data[byteIndex] := data[byteIndex] + 1;
        }
        assert data[..] == before[byteIndex := (before[byteIndex] * 2) % 0x100 + BitOf(c, bit)];
        bit := bit + 1;
      }
      FirstInvalidIs(c, NumDataBits);
      ok := true;
    }

    /** `readSensorData()` with the clock readings `now1` (inside
        `available()`) and `now2` (the timestamp): within the minimum interval
        nothing changes and the cached status is returned; otherwise the run
        is stamped, its status cleared, and what it leaves is `Protocol`. */
    method ReadSensorData(now1: U32, now2: U32, line: seq<Level>, pos: nat) returns (ok: bool, next: nat)
      requires Valid()
      modifies this, cycles, data
      ensures Valid() && ok == statusLastMeasurement
      ensures !old(Available(now1)) ==>
                && ok == old(statusLastMeasurement) && next == pos
                && lastMeasurementTimestamp == old(lastMeasurementTimestamp)
                && cycles[..] == old(cycles[..]) && data[..] == old(data[..])
      ensures old(Available(now1)) ==>
                && lastMeasurementTimestamp == now2
                && Outcome(ok, cycles[..], data[..], next)
                   == Protocol(line, pos, maxCycles, old(cycles[..]), old(data[..]))
    {
      if !Available(now1) {
        return statusLastMeasurement, pos;
      }
      ghost var cycles0, data0 := cycles[..], data[..];
      lastMeasurementTimestamp := now2;
      statusLastMeasurement := false;
      var started, afterStart := GenerateStart(line, pos);
      if !started {
        ProtocolNoHandshake(line, pos, maxCycles, cycles0, data0);
        return false, afterStart;
      }
      var read, afterRead := ReadBytes(line, afterStart);
      ProtocolAfterHandshake(line, pos, maxCycles, cycles0, data0, afterStart, cycles[..], afterRead);
      next := afterRead;
      if !read {
        return false, next;
      }
      if Checksum(data[..]) != data[4] {
        return false, next;
      }
      statusLastMeasurement := true;
      ok := true;
    }

    /** `readTemperature()`: the temperature of the current or cached
        payload when the (current or cached) status is good, else `~0`. */
    method ReadTemperature(now1: U32, now2: U32, line: seq<Level>, pos: nat) returns (t: Int16, next: nat)
      requires Valid()
      modifies this, cycles, data
      ensures Valid()
      ensures !old(Available(now1)) ==>
                && next == pos && statusLastMeasurement == old(statusLastMeasurement)
                && lastMeasurementTimestamp == old(lastMeasurementTimestamp)
                && cycles[..] == old(cycles[..]) && data[..] == old(data[..])
      ensures old(Available(now1)) ==>
                && lastMeasurementTimestamp == now2
                && Outcome(statusLastMeasurement, cycles[..], data[..], next)
                   == Protocol(line, pos, maxCycles, old(cycles[..]), old(data[..]))
      ensures t == if statusLastMeasurement then Temperature(data[2], data[3]) else Sentinel
    {
      t := Sentinel;
      var ok;
      ok, next := ReadSensorData(now1, now2, line, pos);
      if ok {
        t := Temperature(data[2], data[3]);
      }
    }

    /** `readHumidity()`: the humidity of the current or cached payload when
        the status is good, else `~0`. */
    method ReadHumidity(now1: U32, now2: U32, line: seq<Level>, pos: nat) returns (h: Int16, next: nat)
      requires Valid()
      modifies this, cycles, data
      ensures Valid()
      ensures !old(Available(now1)) ==>
                && next == pos && statusLastMeasurement == old(statusLastMeasurement)
                && lastMeasurementTimestamp == old(lastMeasurementTimestamp)
                && cycles[..] == old(cycles[..]) && data[..] == old(data[..])
      ensures old(Available(now1)) ==>
                && lastMeasurementTimestamp == now2
                && Outcome(statusLastMeasurement, cycles[..], data[..], next)
                   == Protocol(line, pos, maxCycles, old(cycles[..]), old(data[..]))
      ensures h == if statusLastMeasurement then Humidity(data[0], data[1]) else Sentinel
    {
      h := Sentinel;
      var ok;
      ok, next := ReadSensorData(now1, now2, line, pos);
      if ok {
        h := Humidity(data[0], data[1]);
      }
    }
  }
}
