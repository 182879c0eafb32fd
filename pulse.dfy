/** The data pin as a finite stream of sampled levels, the timeout-bounded
    pulse-width measurement of `measurePulseWidth`, and the specification of
    the two phases built from it: the start handshake and the 80-width capture. */
module Pulse {
  import opened Types

  /** The level the `i`-th `digitalRead` of the run reports. Once the recorded
      samples are used up the line is released and the pull-up holds it High. */
  function Sample(line: seq<Level>, i: nat): (l: Level)
    ensures i < |line| ==> l == line[i]
    ensures |line| <= i ==> l == High
  {
    if i < |line| then line[i] else High
  }

  /** The number of consecutive samples equal to `level` from position `pos`,
      counting no further than `cap`. */
  function RunLength(line: seq<Level>, pos: nat, level: Level, cap: nat): (n: nat)
    ensures n <= cap
    decreases cap
  {
    if cap == 0 || Sample(line, pos) != level then 0
    else 1 + RunLength(line, pos + 1, level, cap - 1)
  }

  /** The run is made of samples of `level`, and unless it reached the cap
      the sample right after it has the other level. */
  lemma {:induction false} RunLengthMeaning(line: seq<Level>, pos: nat, level: Level, cap: nat)
    ensures var n := RunLength(line, pos, level, cap);
            && (forall k :: pos <= k < pos + n ==> Sample(line, k) == level)
            && (n < cap ==> Sample(line, pos + n) != level)
    decreases cap
  {
    if cap > 0 && Sample(line, pos) == level {
      RunLengthMeaning(line, pos + 1, level, cap - 1);
    }
  }

  /** Any run of `level` samples ended by another level, or reaching the cap,
      has the length `RunLength` gives. */
  lemma RunLengthUnique(line: seq<Level>, pos: nat, level: Level, cap: nat, n: nat)
    requires n <= cap
    requires forall k :: pos <= k < pos + n ==> Sample(line, k) == level
    requires n < cap ==> Sample(line, pos + n) != level
    ensures RunLength(line, pos, level, cap) == n
  {
    RunLengthMeaning(line, pos, level, cap);
  }

  /** What one pulse-width measurement yields: the width (0 for a timeout or
      a missing pulse) and the position of the next unread sample. */
  datatype Measured = Measured(width: U32, next: nat)

  /** `measurePulseWidth(level)` with the timeout `maxCycles`, started at
      sample `pos`. The read that sees the level change is consumed too. */
  function PulseWidth(line: seq<Level>, pos: nat, level: Level, maxCycles: U32): (m: Measured)
    ensures m.width <= maxCycles
    ensures pos < m.next <= pos + maxCycles + 1
  {
    var n := RunLength(line, pos, level, maxCycles + 1);
    if n <= maxCycles then Measured(n, pos + n + 1) else Measured(0, pos + maxCycles + 1)
  }

  /** A nonzero width is a pulse of exactly that many samples, ended by a
      sample of the other level; zero means that the first sample already
      differs or that the level lasted `maxCycles + 1` samples. */
  lemma PulseWidthMeaning(line: seq<Level>, pos: nat, level: Level, maxCycles: U32)
    ensures var m := PulseWidth(line, pos, level, maxCycles);
            && (m.width != 0 ==>
                  && m.next == pos + m.width + 1
                  && (forall k :: pos <= k < pos + m.width ==> Sample(line, k) == level)
                  && Sample(line, pos + m.width) != level)
            && (m.width == 0 <==>
                  Sample(line, pos) != level || forall k :: pos <= k <= pos + maxCycles ==> Sample(line, k) == level)
  {
    RunLengthMeaning(line, pos, level, maxCycles + 1);
  }

  /** A pulse of exactly `n` samples, `1 <= n <= maxCycles`, is measured as
      `n` after `n + 1` reads. */
  lemma PulseMeasured(line: seq<Level>, pos: nat, level: Level, maxCycles: U32, n: nat)
    requires 1 <= n <= maxCycles
    requires forall k :: pos <= k < pos + n ==> Sample(line, k) == level
    requires Sample(line, pos + n) != level
    ensures PulseWidth(line, pos, level, maxCycles) == Measured(n, pos + n + 1)
  {
    RunLengthUnique(line, pos, level, maxCycles + 1, n);
  }

  /** A level that lasts `maxCycles + 1` samples or longer times out: the
      result is 0 after exactly `maxCycles + 1` reads. */
  lemma PulseTimesOut(line: seq<Level>, pos: nat, level: Level, maxCycles: U32)
    requires forall k :: pos <= k <= pos + maxCycles ==> Sample(line, k) == level
    ensures PulseWidth(line, pos, level, maxCycles) == Measured(0, pos + maxCycles + 1)
  {
    RunLengthUnique(line, pos, level, maxCycles + 1, maxCycles + 1);
  }

  /** When the first read already shows the other level the result is 0 after
      one read, the same value a timeout gives. */
  lemma PulseMissing(line: seq<Level>, pos: nat, level: Level, maxCycles: U32)
    requires Sample(line, pos) != level
    ensures PulseWidth(line, pos, level, maxCycles) == Measured(0, pos + 1)
  {
  }

  /** The outcome of the start handshake's two checks (DHT22.cpp lines 213-224). */
  datatype Started = Started(ok: bool, next: nat)

  /** The two acknowledgment pulses the sensor answers the wake signal with:
      a low pulse, then a high pulse; a zero width for either is a failure,
      and the high pulse is not measured after a failed low one. */
  function Start(line: seq<Level>, pos: nat, maxCycles: U32): (s: Started)
    ensures pos < s.next <= pos + 2 * (maxCycles + 1)
    ensures s.ok ==> pos + 4 <= s.next
  {
    var low := PulseWidth(line, pos, Low, maxCycles);
    if low.width == 0 then Started(false, low.next)
    else
      var high := PulseWidth(line, low.next, High, maxCycles);
      Started(high.width != 0, high.next)
  }

  /** The result of capturing the pulse widths of a number of data bits. */
  datatype Captured = Captured(widths: seq<U32>, next: nat)

  /** The capture loop of `readBytes` after `bits` iterations: widths
      `2i` and `2i + 1` are the low and the high pulse of bit `i`. */
  function Capture(line: seq<Level>, pos: nat, maxCycles: U32, bits: nat): (c: Captured)
    ensures |c.widths| == 2 * bits
    ensures pos <= c.next
  {
    if bits == 0 then Captured([], pos)
    else
      var before := Capture(line, pos, maxCycles, bits - 1);
      var low := PulseWidth(line, before.next, Low, maxCycles);
      var high := PulseWidth(line, low.next, High, maxCycles);
      Captured(before.widths + [low.width, high.width], high.next)
  }

  /** Each captured width is taken at its own, later position in the stream,
      alternately for Low and for High, and the capture never runs past
      `maxCycles + 1` reads per width. */
  lemma {:induction false} CaptureOrder(line: seq<Level>, pos: nat, maxCycles: U32, bits: nat)
    ensures var c := Capture(line, pos, maxCycles, bits);
            && 2 * bits <= c.next - pos
            && forall j :: 0 <= j < 2 * bits ==> c.widths[j] <= maxCycles
  {
    if bits > 0 {
      CaptureOrder(line, pos, maxCycles, bits - 1);
    }
  }

  // ---------------------------------------------------------------------
  // Waveforms a sensor sends, for stating what a run yields on them.

  /** `n` samples of `level`. */
  function Repeat(level: Level, n: nat): (s: seq<Level>)
    ensures |s| == n
  {
    if n == 0 then [] else Repeat(level, n - 1) + [level]
  }

  lemma {:induction false} RepeatAt(level: Level, n: nat, i: nat)
    requires i < n
    ensures Repeat(level, n)[i] == level
  {
    if i < n - 1 {
      RepeatAt(level, n - 1, i);
    }
  }

  /** A pulse of `w` samples of `level` followed by the sample that shows the
      change: what one measurement of width `w` consumes. */
  function Segment(level: Level, w: nat): (s: seq<Level>)
    ensures |s| == w + 1
  {
    Repeat(level, w) + [level.Flip()]
  }

  /** A segment of width between 1 and `maxCycles`, wherever it stands in the
      stream, is measured as its width and consumed whole. */
  lemma SegmentMeasured(pre: seq<Level>, level: Level, w: nat, post: seq<Level>, maxCycles: U32)
    requires 1 <= w <= maxCycles
    ensures PulseWidth(pre + Segment(level, w) + post, |pre|, level, maxCycles) == Measured(w, |pre| + w + 1)
  {
    var line := pre + Segment(level, w) + post;
    forall k | |pre| <= k < |pre| + w
      ensures Sample(line, k) == level
    {
      assert line[k] == Segment(level, w)[k - |pre|];
      RepeatAt(level, w, k - |pre|);
    }
    assert line[|pre| + w] == Segment(level, w)[w];
    PulseMeasured(line, |pre|, level, maxCycles, w);
  }

  /** The waveform that makes the capture read the widths `ws`, pairs of a
      low and a high width. */
  function BitWave(ws: seq<U32>): (s: seq<Level>)
    requires |ws| % 2 == 0
    decreases |ws|
  {
    if ws == [] then []
    else
      var n := |ws|;
      BitWave(ws[..n - 2]) + Segment(Low, ws[n - 2]) + Segment(High, ws[n - 1])
  }

  /** Capturing a `BitWave` whose widths are all in 1..maxCycles gives back
      exactly those widths, and stops where the wave ends. */
  lemma {:induction false} CaptureBitWave(pre: seq<Level>, ws: seq<U32>, post: seq<Level>, maxCycles: U32)
    requires |ws| % 2 == 0
    requires forall j :: 0 <= j < |ws| ==> 1 <= ws[j] <= maxCycles
    ensures Capture(pre + BitWave(ws) + post, |pre|, maxCycles, |ws| / 2)
            == Captured(ws, |pre| + |BitWave(ws)|)
    decreases |ws|
  {
    if ws != [] {
      var n := |ws|;
      var front, a, b := ws[..n - 2], ws[n - 2], ws[n - 1];
      var lowAt := pre + BitWave(front);
      var highAt := lowAt + Segment(Low, a);
      var line := pre + BitWave(ws) + post;
      BitWaveLayout(pre, ws, post);
      CaptureBitWave(pre, front, Segment(Low, a) + Segment(High, b) + post, maxCycles);
      SegmentMeasured(lowAt, Low, a, Segment(High, b) + post, maxCycles);
      SegmentMeasured(highAt, High, b, post, maxCycles);
      assert n / 2 - 1 == |front| / 2;
      CaptureStep(line, |pre|, maxCycles, n / 2, |lowAt|, a, b);
    }
  }

  /** The last pulse pair of a `BitWave` follows the wave of the pairs before it. */
  lemma BitWaveLayout(pre: seq<Level>, ws: seq<U32>, post: seq<Level>)
    requires |ws| % 2 == 0 && ws != []
    ensures var n := |ws|;
            var front, a, b := ws[..n - 2], ws[n - 2], ws[n - 1];
            var line := pre + BitWave(ws) + post;
            && ws == front + [a, b]
            && line == pre + BitWave(front) + (Segment(Low, a) + Segment(High, b) + post)
            && line == (pre + BitWave(front)) + Segment(Low, a) + (Segment(High, b) + post)
            && line == (pre + BitWave(front) + Segment(Low, a)) + Segment(High, b) + post
  {
    var n := |ws|;
    var front, a, b := ws[..n - 2], ws[n - 2], ws[n - 1];
    assert ws == front + [a, b];
    Regroup(pre, BitWave(front), Segment(Low, a), Segment(High, b), post);
  }

  /** The regroupings of a concatenation of five streams that the wave
      lemmas need. */
  lemma Regroup(a: seq<Level>, b: seq<Level>, c: seq<Level>, d: seq<Level>, e: seq<Level>)
    ensures a + (b + c + d) + e == a + b + (c + d + e)
    ensures a + (b + c + d) + e == (a + b) + c + (d + e)
    ensures a + (b + c + d) + e == (a + b + c) + d + e
  {
  }

  /** One iteration of the capture loop: a low width and a high width read
      right after the earlier bits. */
  lemma CaptureStep(line: seq<Level>, pos: nat, maxCycles: U32, bits: nat, q: nat, a: U32, b: U32)
    requires bits > 0
    requires Capture(line, pos, maxCycles, bits - 1).next == q
    requires PulseWidth(line, q, Low, maxCycles) == Measured(a, q + a + 1)
    requires PulseWidth(line, q + a + 1, High, maxCycles) == Measured(b, q + a + b + 2)
    ensures Capture(line, pos, maxCycles, bits)
            == Captured(Capture(line, pos, maxCycles, bits - 1).widths + [a, b], q + a + b + 2)
  {
  }

  /** One more iteration of the capture loop appends whatever the two
      measurements return, timeouts included. */
  lemma CaptureNext(line: seq<Level>, pos: nat, maxCycles: U32, bits: nat, ws: seq<U32>, q: nat,
                    low: U32, afterLow: nat, high: U32, afterHigh: nat)
    requires Capture(line, pos, maxCycles, bits) == Captured(ws, q)
    requires PulseWidth(line, q, Low, maxCycles) == Measured(low, afterLow)
    requires PulseWidth(line, afterLow, High, maxCycles) == Measured(high, afterHigh)
    ensures Capture(line, pos, maxCycles, bits + 1) == Captured(ws + [low, high], afterHigh)
  {
  }

  /** The sensor's whole answer: the two acknowledgment pulses, then the
      pulse pairs of the data bits. */
  function SensorFrame(ackLow: nat, ackHigh: nat, ws: seq<U32>): seq<Level>
    requires |ws| % 2 == 0
  {
    Segment(Low, ackLow) + Segment(High, ackHigh) + BitWave(ws)
  }

  /** On a sensor frame with acknowledgment and data widths in 1..maxCycles
      the handshake succeeds and the capture reads back the data widths. */
  lemma ReadSensorFrame(ackLow: U32, ackHigh: U32, ws: seq<U32>, post: seq<Level>, maxCycles: U32)
    requires 1 <= ackLow <= maxCycles && 1 <= ackHigh <= maxCycles
    requires |ws| % 2 == 0
    requires forall j :: 0 <= j < |ws| ==> 1 <= ws[j] <= maxCycles
    ensures var line := SensorFrame(ackLow, ackHigh, ws) + post;
            var s := Start(line, 0, maxCycles);
            && s == Started(true, ackLow + ackHigh + 2)
            && Capture(line, s.next, maxCycles, |ws| / 2) == Captured(ws, |SensorFrame(ackLow, ackHigh, ws)|)
  {
    var ack := Segment(Low, ackLow) + Segment(High, ackHigh);
    var line := SensorFrame(ackLow, ackHigh, ws) + post;
    SensorFrameLayout(ackLow, ackHigh, ws, post);
    FrameHandshake(ackLow, ackHigh, BitWave(ws) + post, maxCycles);
    assert Start(line, 0, maxCycles) == Started(true, |ack|);
    CaptureBitWave(ack, ws, post, maxCycles);
    assert Capture(line, |ack|, maxCycles, |ws| / 2) == Captured(ws, |ack| + |BitWave(ws)|);
  }

  /** The two acknowledgment pulses at the head of a frame, whatever follows. */
  lemma FrameHandshake(ackLow: U32, ackHigh: U32, rest: seq<Level>, maxCycles: U32)
    requires 1 <= ackLow <= maxCycles && 1 <= ackHigh <= maxCycles
    ensures Start(Segment(Low, ackLow) + Segment(High, ackHigh) + rest, 0, maxCycles)
            == Started(true, ackLow + ackHigh + 2)
  {
    var line := Segment(Low, ackLow) + Segment(High, ackHigh) + rest;
    assert line == [] + Segment(Low, ackLow) + (Segment(High, ackHigh) + rest);
    SegmentMeasured([], Low, ackLow, Segment(High, ackHigh) + rest, maxCycles);
    SegmentMeasured(Segment(Low, ackLow), High, ackHigh, rest, maxCycles);
  }

  lemma SensorFrameLayout(ackLow: U32, ackHigh: U32, ws: seq<U32>, post: seq<Level>)
    requires |ws| % 2 == 0
    ensures var line := SensorFrame(ackLow, ackHigh, ws) + post;
            var ack := Segment(Low, ackLow) + Segment(High, ackHigh);
            && line == Segment(Low, ackLow) + Segment(High, ackHigh) + (BitWave(ws) + post)
            && line == ack + BitWave(ws) + post
  {
    Regroup4(Segment(Low, ackLow), Segment(High, ackHigh), BitWave(ws), post);
  }

  lemma Regroup4(a: seq<Level>, b: seq<Level>, c: seq<Level>, d: seq<Level>)
    ensures a + b + c + d == a + b + (c + d)
  {
  }
}
