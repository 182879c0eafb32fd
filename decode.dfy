/** The second half of `readBytes`: turning 80 captured pulse widths into the
    five payload bytes, most significant bit first, and the parity check of
    `readSensorData`. */
module Decode {
  import opened Types

  type Bit = x: nat | x < 2

  /** Data bit `i`: 1 when its high pulse lasted longer than its low pulse
      (equal widths give 0). */
  function BitOf(c: seq<U32>, i: nat): (b: Bit)
    requires |c| == NumCycles && i < NumDataBits
    ensures b == 1 <==> c[2 * i] < c[2 * i + 1]
  {
    if c[2 * i + 1] > c[2 * i] then 1 else 0
  }

  /** Neither width of bit `i` is the timeout value 0. */
  predicate PairValid(c: seq<U32>, i: nat)
    requires |c| == NumCycles && i < NumDataBits
    ensures PairValid(c, i) <==> 0 < c[2 * i] && 0 < c[2 * i + 1]
  {
    c[2 * i] != 0 && c[2 * i + 1] != 0
  }

  /** The index of the first bit with a zero width at or after `i`, or 40. */
  function FirstInvalidFrom(c: seq<U32>, i: nat): (n: nat)
    requires |c| == NumCycles && i <= NumDataBits
    ensures i <= n <= NumDataBits
    decreases NumDataBits - i
  {
    if i == NumDataBits || !PairValid(c, i) then i else FirstInvalidFrom(c, i + 1)
  }

  /** The bit at which the decode loop stops: the first with a zero width,
      or 40 when there is none. */
  function FirstInvalid(c: seq<U32>): (n: nat)
    requires |c| == NumCycles
    ensures n <= NumDataBits
    ensures forall j :: 0 <= j < n ==> PairValid(c, j)
    ensures n < NumDataBits ==> !PairValid(c, n)
  {
    FirstInvalidFromMeaning(c, 0);
    FirstInvalidFrom(c, 0)
  }

  /** Every bit before the stopping point is valid, and the loop stops early
      only at a bit that has a zero width. */
  lemma {:induction false} FirstInvalidFromMeaning(c: seq<U32>, i: nat)
    requires |c| == NumCycles && i <= NumDataBits
    ensures var n := FirstInvalidFrom(c, i);
            && (forall j :: i <= j < n ==> PairValid(c, j))
            && (n < NumDataBits ==> !PairValid(c, n))
    decreases NumDataBits - i
  {
    if i < NumDataBits && PairValid(c, i) {
      FirstInvalidFromMeaning(c, i + 1);
    }
  }

  /** The stopping point is the first bit with a zero width. */
  lemma FirstInvalidIs(c: seq<U32>, n: nat)
    requires |c| == NumCycles && n <= NumDataBits
    requires forall j :: 0 <= j < n ==> PairValid(c, j)
    requires n < NumDataBits ==> !PairValid(c, n)
    ensures FirstInvalid(c) == n
  {
    FirstInvalidFromMeaning(c, 0);
  }

  /** The decode succeeds exactly when no width at all is zero. */
  lemma AllValidIff(c: seq<U32>)
    requires |c| == NumCycles
    ensures FirstInvalid(c) == NumDataBits <==> forall j :: 0 <= j < NumCycles ==> c[j] != 0
  {
    FirstInvalidFromMeaning(c, 0);
    var n := FirstInvalid(c);
    if n == NumDataBits {
      forall j | 0 <= j < NumCycles
        ensures c[j] != 0
      {
        assert PairValid(c, j / 2);
      }
    } else {
      assert c[2 * n] == 0 || c[2 * n + 1] == 0;
    }
  }

  /** The contents of `_data` after the decode loop has stored bits 0..n-1
      into a cleared buffer: bit `i` is shifted into byte `i / 8`. The left
      shift of a `uint8_t` drops the bit shifted out (`% 256`); the OR with 1
      sets the bit the shift has just cleared. */
  function Packed(c: seq<U32>, n: nat): (d: seq<Byte>)
    requires |c| == NumCycles && n <= NumDataBits
    ensures |d| == NumDataBytes
  {
    if n == 0 then [0, 0, 0, 0, 0]
    else
      var d := Packed(c, n - 1);
      var b := (n - 1) / 8;
      d[b := (d[b] * 2) % 0x100 + BitOf(c, n - 1)]
  }

  /** The value of the first `m` bits of payload byte `k`, read most
      significant bit first. */
  function PrefixValue(c: seq<U32>, k: nat, m: nat): (v: nat)
    requires |c| == NumCycles && k < NumDataBytes && m <= 8
    ensures v < Pow2(m)
  {
    if m == 0 then 0 else 2 * PrefixValue(c, k, m - 1) + BitOf(c, 8 * k + m - 1)
  }

  /** Payload byte `k` as the sensor sent it. */
  function ByteValue(c: seq<U32>, k: nat): Byte
    requires |c| == NumCycles && k < NumDataBytes
  {
    assert Pow2(8) == 0x100;
    PrefixValue(c, k, 8)
  }

  /** All five payload bytes. */
  function DecodeBytes(c: seq<U32>): (d: seq<Byte>)
    requires |c| == NumCycles
    ensures |d| == NumDataBytes
    ensures forall k :: 0 <= k < NumDataBytes ==> d[k] == WeightedSum(c, k, 8)
  {
    ByteValuesWeighted(c);
    seq(NumDataBytes, k requires 0 <= k < NumDataBytes => ByteValue(c, k))
  }

  /** The number of bits of byte `k` among the first `n` bits. */
  function BitsStored(n: nat, k: nat): (m: nat)
    ensures m <= 8
  {
    if n <= 8 * k then 0 else if n >= 8 * k + 8 then 8 else n - 8 * k
  }

  lemma Pow2Below8(e: nat)
    requires e < 8
    ensures Pow2(e) <= 0x80
  {
    Pow2Values(e);
  }

  lemma Pow2Values(j: nat)
    requires j < 8
    ensures Pow2(j) == [1, 2, 4, 8, 16, 32, 64, 128][j]
  {
    if j > 0 {
      Pow2Values(j - 1);
    }
  }

  /** After storing `n` bits, each byte holds the value of the bits of it
      that have arrived: nothing is lost to the 8-bit shift, later bytes
      are still 0 and earlier ones are complete. */
  lemma {:induction false} PackedHoldsStoredBits(c: seq<U32>, n: nat, k: nat)
    requires |c| == NumCycles && n <= NumDataBits && k < NumDataBytes
    ensures Packed(c, n)[k] == PrefixValue(c, k, BitsStored(n, k))
  {
    if n > 0 {
      PackedHoldsStoredBits(c, n - 1, k);
      PackedStep(c, n, k);
      if (n - 1) / 8 == k {
        ShiftInBit(c, k, n - 1 - 8 * k);
      } else {
        assert BitsStored(n - 1, k) == BitsStored(n, k);
      }
    }
  }

  /** The 8-bit shift of a byte that holds fewer than 8 bits loses nothing. */
  lemma ShiftInBit(c: seq<U32>, k: nat, m: nat)
    requires |c| == NumCycles && k < NumDataBytes && m < 8
    ensures BitsStored(8 * k + m, k) == m && BitsStored(8 * k + m + 1, k) == m + 1
    ensures (PrefixValue(c, k, m) * 2) % 0x100 + BitOf(c, 8 * k + m) == PrefixValue(c, k, m + 1)
  {
    Pow2Below8(m);
  }

  /** Storing bit `n - 1` changes byte `(n - 1) / 8` only. */
  lemma PackedStep(c: seq<U32>, n: nat, k: nat)
    requires |c| == NumCycles && 0 < n <= NumDataBits && k < NumDataBytes
    ensures var before := Packed(c, n - 1)[k];
            Packed(c, n)[k] == if k == (n - 1) / 8 then (before * 2) % 0x100 + BitOf(c, n - 1) else before
  {
  }

  /** After all 40 bits, `_data` holds the decoded payload. */
  lemma PackedComplete(c: seq<U32>)
    requires |c| == NumCycles
    ensures Packed(c, NumDataBits) == DecodeBytes(c)
  {
    forall k | 0 <= k < NumDataBytes
      ensures Packed(c, NumDataBits)[k] == DecodeBytes(c)[k]
    {
      PackedHoldsStoredBits(c, NumDataBits, k);
    }
  }

  /** The sum over the first `m` bits `j` of byte `k` of bit `8k + j` times
      2^(7 - j). */
  function WeightedSum(c: seq<U32>, k: nat, m: nat): nat
    requires |c| == NumCycles && k < NumDataBytes && m <= 8
  {
    if m == 0 then 0 else WeightedSum(c, k, m - 1) + BitOf(c, 8 * k + m - 1) * Pow2(8 - m)
  }

  lemma {:induction false} PrefixValueWeighted(c: seq<U32>, k: nat, m: nat)
    requires |c| == NumCycles && k < NumDataBytes && m <= 8
    ensures PrefixValue(c, k, m) * Pow2(8 - m) == WeightedSum(c, k, m)
  {
    if m > 0 {
      PrefixValueWeighted(c, k, m - 1);
      var x, b, p := PrefixValue(c, k, m - 1), BitOf(c, 8 * k + m - 1), Pow2(8 - m);
      assert PrefixValue(c, k, m) == 2 * x + b;
      assert Pow2(8 - (m - 1)) == 2 * p;
      Distribute(x, b, p);
    }
  }

  lemma Distribute(x: int, b: int, p: int)
    ensures (2 * x + b) * p == x * (2 * p) + b * p
  {
  }

  /** Payload byte `k` is the sum over m < 8 of bit `8k + m` times 2^(7 - m). */
  lemma ByteValueIsWeightedSum(c: seq<U32>, k: nat)
    requires |c| == NumCycles && k < NumDataBytes
    ensures ByteValue(c, k) == WeightedSum(c, k, 8)
  {
    PrefixValueWeighted(c, k, 8);
  }

  lemma ByteValuesWeighted(c: seq<U32>)
    requires |c| == NumCycles
    ensures forall k :: 0 <= k < NumDataBytes ==> ByteValue(c, k) == WeightedSum(c, k, 8)
  {
    forall k | 0 <= k < NumDataBytes
      ensures ByteValue(c, k) == WeightedSum(c, k, 8)
    {
      ByteValueIsWeightedSum(c, k);
    }
  }

  // ---------------------------------------------------------------------
  // The sensor's side: the widths that a payload produces

  /** Bit `m` of byte `v`, counting from the most significant. */
  function ByteBit(v: Byte, m: nat): Bit
    requires m < 8
  {
    (v / Pow2(7 - m)) % 2
  }

  /** The widths captured from a sensor that sends `bytes`: every low pulse
      lasts `low`, the high pulse of a 1 bit `oneHigh` and that of a 0 bit
      `zeroHigh`. */
  function PayloadWidths(bytes: seq<Byte>, low: U32, zeroHigh: U32, oneHigh: U32): (c: seq<U32>)
    requires |bytes| == NumDataBytes
    ensures |c| == NumCycles
  {
    seq(NumCycles, j requires 0 <= j < NumCycles =>
      if j % 2 == 0 then low
      else if ByteBit(bytes[j / 16], (j / 2) % 8) == 1 then oneHigh
      else zeroHigh)
  }

  /** A high pulse longer than the low pulse decodes as 1, one no longer
      than it as 0. */
  lemma PayloadBit(bytes: seq<Byte>, low: U32, zeroHigh: U32, oneHigh: U32, k: nat, m: nat)
    requires |bytes| == NumDataBytes && zeroHigh <= low < oneHigh
    requires k < NumDataBytes && m < 8
    ensures BitOf(PayloadWidths(bytes, low, zeroHigh, oneHigh), 8 * k + m) == ByteBit(bytes[k], m)
  {
    var i := 8 * k + m;
    assert (2 * i) % 2 == 0 && (2 * i + 1) % 2 == 1;
    assert (2 * i + 1) / 16 == k && ((2 * i + 1) / 2) % 8 == m;
  }

  /** Reading the bits of `v` most significant first builds up `v` from the
      top: after `m` bits the value is `v` without its low `8 - m` bits. */
  lemma {:induction false} PrefixOfByte(c: seq<U32>, k: nat, v: Byte, m: nat)
    requires |c| == NumCycles && k < NumDataBytes && m <= 8
    requires forall j :: 0 <= j < 8 ==> BitOf(c, 8 * k + j) == ByteBit(v, j)
    ensures PrefixValue(c, k, m) == v / Pow2(8 - m)
  {
    if m == 0 {
      assert Pow2(8) == 0x100;
      assert v / 0x100 == 0;
    } else {
      PrefixOfByte(c, k, v, m - 1);
      var p := Pow2(8 - m);
      assert Pow2(8 - (m - 1)) == 2 * p;
      var j := m - 1;
      assert BitOf(c, 8 * k + j) == ByteBit(v, j);
      assert ByteBit(v, j) == (v / p) % 2;
      HalveQuotient(v, p);
    }
  }

  /** Halving the quotient by `p` is dividing by `2p`. */
  lemma HalveQuotient(v: nat, p: nat)
    requires p > 0
    ensures v / (2 * p) == (v / p) / 2
  {
    var q, r := v / p, v % p;
    var h, s := q / 2, q % 2;
    assert v == p * q + r;
    assert q == 2 * h + s;
    assert p * q == (2 * p) * h + p * s;
    assert 0 <= p * s <= p;
    DivUnique(v, 2 * p, h, p * s + r);
  }

  lemma DivUnique(v: int, d: int, h: int, r: int)
    requires d > 0 && v == d * h + r && 0 <= r < d
    ensures v / d == h
  {
    var q := v / d;
    assert v == d * q + v % d;
    var e := h - q;
    assert d * e == v % d - r by {
      assert d * e == d * h - d * q;
    }
    if e >= 1 {
      AtLeastOnce(d, e);
    } else if e <= -1 {
      AtLeastOnce(d, -e);
    }
  }

  lemma AtLeastOnce(d: int, e: int)
    requires d > 0 && e >= 1
    ensures d * e >= d
  {
    assert d * e == d * (e - 1) + d;
  }

  /** Round trip: the widths a sensor produces for `bytes` have no timeout,
      and the decode loop recovers `bytes` exactly. */
  lemma DecodePayload(bytes: seq<Byte>, low: U32, zeroHigh: U32, oneHigh: U32)
    requires |bytes| == NumDataBytes && 1 <= zeroHigh <= low < oneHigh
    ensures var c := PayloadWidths(bytes, low, zeroHigh, oneHigh);
            && FirstInvalid(c) == NumDataBits
            && DecodeBytes(c) == bytes
            && Packed(c, NumDataBits) == bytes
  {
    var c := PayloadWidths(bytes, low, zeroHigh, oneHigh);
    AllValidIff(c);
    forall k | 0 <= k < NumDataBytes
      ensures DecodeBytes(c)[k] == bytes[k]
    {
      forall j | 0 <= j < 8
        ensures BitOf(c, 8 * k + j) == ByteBit(bytes[k], j)
      {
        PayloadBit(bytes, low, zeroHigh, oneHigh, k, j);
      }
      PrefixOfByte(c, k, bytes[k], 8);
    }
    PackedComplete(c);
  }

  // ---------------------------------------------------------------------
  // Parity

  /** The low 8 bits of the sum of the first four bytes. For a non-negative
      sum, `& 0xFF` is the remainder modulo 256. */
  function Checksum(d: seq<Byte>): (s: Byte)
    requires |d| >= 4
    ensures (d[0] as int + d[1] + d[2] + d[3] - s) % 0x100 == 0
  {
    (d[0] as int + d[1] + d[2] + d[3]) % 0x100
  }

  /** The parity check of `readSensorData` (DHT22.cpp line 179). */
  predicate ParityOk(d: seq<Byte>)
    requires |d| == NumDataBytes
    ensures ParityOk(d) <==> d == d[..4] + [Checksum(d[..4])]
  {
    assert d == d[..4] + [d[4]];
    Checksum(d) == d[4]
  }

  /** A four-byte reading completed with its checksum byte. */
  function WithChecksum(p: seq<Byte>): (d: seq<Byte>)
    requires |p| == 4
    ensures |d| == NumDataBytes && d[..4] == p && ParityOk(d)
  {
    p + [Checksum(p)]
  }

  /** Worked examples of the parity byte. */
  lemma ExampleChecksums()
    ensures ParityOk([0x02, 0x8D, 0x00, 0xE7, 0x76])
    ensures WithChecksum([0x01, 0x90, 0x00, 0xC8]) == [0x01, 0x90, 0x00, 0xC8, 0x59]
  {
  }

  /** `b` with bit `j` inverted (an XOR with `1 << j`). */
  function FlipBit(b: Byte, j: nat): (r: Byte)
    requires j < 8
    ensures r != b
  {
    FlipChangesByte(b as bv8, j);
    ((b as bv8) ^ ((1 as bv8) << j)) as int
  }

  lemma FlipChangesByte(x: bv8, j: nat)
    requires j < 8
    ensures x ^ ((1 as bv8) << j) != x
  {
  }

  /** Replacing any one of the five bytes of a payload that passes the
      parity check by a different byte makes the check fail. */
  lemma SingleByteErrorDetected(d: seq<Byte>, i: nat, v: Byte)
    requires |d| == NumDataBytes && ParityOk(d)
    requires i < NumDataBytes && v != d[i]
    ensures !ParityOk(d[i := v])
  {
    var e := d[i := v];
    if i < 4 {
      var s := d[0] as int + d[1] + d[2] + d[3];
      var t := e[0] as int + e[1] + e[2] + e[3];
      assert t == s + (v - d[i]);
      if v > d[i] {
        ShiftChangesRemainder(s, v - d[i]);
      } else {
        ShiftChangesRemainder(s, d[i] - v);
      }
      assert Checksum(e) == t % 0x100;
    } else {
      assert Checksum(e) == Checksum(d);
    }
  }

  /** In particular every single-bit error, in any of the 40 bit positions,
      is detected. */
  lemma SingleBitFlipDetected(d: seq<Byte>, i: nat, j: nat)
    requires |d| == NumDataBytes && ParityOk(d)
    requires i < NumDataBytes && j < 8
    ensures !ParityOk(d[i := FlipBit(d[i], j)])
  {
    SingleByteErrorDetected(d, i, FlipBit(d[i], j));
  }

  /** Adding or subtracting less than 256 (and more than 0) changes the
      remainder modulo 256. */
  lemma ShiftChangesRemainder(s: int, p: int)
    requires 0 < p < 0x100
    ensures (s + p) % 0x100 != s % 0x100 && (s - p) % 0x100 != s % 0x100
  {
    var q, r := s / 0x100, s % 0x100;
    assert s == 0x100 * q + r;
    if r + p < 0x100 {
      assert (s + p) % 0x100 == r + p;
    } else {
      assert (s + p) % 0x100 == r + p - 0x100;
    }
    if r - p >= 0 {
      assert (s - p) % 0x100 == r - p;
    } else {
      assert (s - p) % 0x100 == r - p + 0x100;
    }
  }
}
