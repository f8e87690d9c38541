/** The integer side of the VL53L1X time-of-flight sensor driver: register
    framing on the I2C bus, the 17-byte result record, the timeout
    mantissa/exponent format and its fixed-point conversions, the timing-budget
    clamp, dynamic SPAD selection and the range check and gain of a reading.
    Bytes the sensor answers with are parameters; every command link the driver
    builds is appended to a ghost bus log. */
module DistanceSensor {
  import opened Bytes
  import opened Options

  /** `kI2CAddress`. */
  const I2cAddress: U8 := 0x29
  /** The R/W flag of the address byte: `I2C_MASTER_WRITE` and `I2C_MASTER_READ`. */
  const MasterWrite: nat := 0
  const MasterRead: nat := 1
  /** `kTargetRate`. */
  const TargetRate: U16 := 0x0A00
  /** `kRangeComplete`. */
  const RangeComplete: U8 := 9
  const MinBudgetUs: U32 := 4528
  const MaxBudgetUs: U32 := 1100000
  /** Gain factor 2011/2048 of a reading. */
  const GainFactor: nat := 2011

  // ------------------------------------------------------------ bus framing

  /** One command link: start, the address byte, then either the bytes
      written or the number of bytes read, then stop. */
  datatype I2cCommand =
    | Write(address: U8, bytes: seq<U8>)
    | Read(address: U8, count: nat)

  /** `(kI2CAddress << 1) | flags`. */
  function AddressByte(flags: nat): (a: U8)
    requires flags < 2
    ensures a / 2 == I2cAddress && a % 2 == flags
  {
    I2cAddress * 2 + flags
  }

  /** A 16-bit value (or register address) as sent: `(v >> 8) & 0xff`, then `v & 0xff`. */
  function Bytes16(v: U16): (b: seq<U8>)
    ensures |b| == 2 && b[0] as int * 0x100 + b[1] == v
  {
    [v / 0x100, v % 0x100]
  }

  /** A 32-bit value as sent, most significant byte first. */
  function Bytes32(v: U32): (b: seq<U8>)
    ensures |b| == 4 && b[0] as int * 0x100_0000 + b[1] as int * 0x1_0000 + b[2] as int * 0x100 + b[3] == v
  {
    Bytes32Digits(v);
    [v / 0x100_0000, v / 0x1_0000 % 0x100, v / 0x100 % 0x100, v % 0x100]
  }

  lemma Bytes32Digits(v: U32)
    ensures v / 0x100_0000 * 0x100_0000 + v / 0x1_0000 % 0x100 * 0x1_0000
          + v / 0x100 % 0x100 * 0x100 + v % 0x100 == v
  {
    var u := v / 0x100;
    var t := u / 0x100;
    DivOfDiv(v, 0x100, 0x100);
    DivOfDiv(v, 0x1_0000, 0x100);
    assert t == v / 0x1_0000 && t / 0x100 == v / 0x100_0000;
    assert v == u * 0x100 + v % 0x100;
    assert u == t * 0x100 + u % 0x100;
    assert t == t / 0x100 * 0x100 + t % 0x100;
  }

  /** A register write: address byte for writing, register address, value. */
  function WriteFrame(reg: U16, value: seq<U8>): I2cCommand {
    Write(AddressByte(MasterWrite), Bytes16(reg) + value)
  }

  /** A register read: the register address written, then `n` bytes read. */
  function ReadFrames(reg: U16, n: nat): seq<I2cCommand> {
    [WriteFrame(reg, []), Read(AddressByte(MasterRead), n)]
  }

  /** Reading the bytes of a write frame back gives the register and the value. */
  lemma WriteFrameFields(reg: U16, value: seq<U8>)
    ensures var w := WriteFrame(reg, value);
      && w.address == 0x52
      && |w.bytes| == 2 + |value|
      && w.bytes[0] as int * 0x100 + w.bytes[1] == reg
      && w.bytes[2..] == value
  {
  }

  // ------------------------------------------------------ the result record

  /** `RangeResults`, a packed 17-byte structure. */
  datatype RangeResults = RangeResults(
    rangeStatus: U8,
    reportStatus: U8,
    streamCount: U8,
    dssActualEffectiveSpads: U16,
    peakSignalCountRate: U16,
    ambientCountRate: U16,
    sigma: U16,
    phase: U16,
    finalRangeMm: U16,
    peakSignalCountRateCorrected: U16)

  /** The sensor's record: three single bytes, then seven big-endian 16-bit
      fields; the range is bytes 13 and 14. */
  function ParseResults(b: seq<U8>): (r: RangeResults)
    requires |b| == 17
  {
    RangeResults(b[0], b[1], b[2],
      BigEndian16(b[3], b[4]), BigEndian16(b[5], b[6]), BigEndian16(b[7], b[8]),
      BigEndian16(b[9], b[10]), BigEndian16(b[11], b[12]), BigEndian16(b[13], b[14]),
      BigEndian16(b[15], b[16]))
  }

  /** The record the sensor sends for `r`. */
  function ResultBytes(r: RangeResults): (b: seq<U8>)
    ensures |b| == 17
  {
    [r.rangeStatus, r.reportStatus, r.streamCount]
      + Bytes16(r.dssActualEffectiveSpads) + Bytes16(r.peakSignalCountRate)
      + Bytes16(r.ambientCountRate) + Bytes16(r.sigma) + Bytes16(r.phase)
      + Bytes16(r.finalRangeMm) + Bytes16(r.peakSignalCountRateCorrected)
  }

  lemma ParseResultBytes(r: RangeResults)
    ensures ParseResults(ResultBytes(r)) == r
  {
  }

  lemma ResultBytesOfParse(b: seq<U8>)
    requires |b| == 17
    ensures ResultBytes(ParseResults(b)) == b
  {
    assert ResultBytes(ParseResults(b)) == b[..3] + b[3..5] + b[5..7] + b[7..9] + b[9..11]
      + b[11..13] + b[13..15] + b[15..];
  }

  /** A 16-bit field as it lies in memory on the little-endian target after
      the raw read: the first byte is the low one. */
  function LittleEndian16(first: U8, second: U8): U16 {
    first + 0x100 * second
  }

  /** Swapping a field loaded little-endian gives the big-endian value. */
  lemma SwapOfLittleEndian(first: U8, second: U8)
    ensures Bswap16(LittleEndian16(first, second)) == BigEndian16(first, second)
  {
    DivModUnique(LittleEndian16(first, second), 0x100, second, first);
  }

  // ------------------------------------------------------- timeout format

  /** The exponent `EncodeTimeout` chooses for `v`: how often `v` must be
      halved to fit in a byte. */
  function Exponent(v: nat): nat {
    if v < 0x100 then 0 else 1 + Exponent(v / 2)
  }

  lemma HalveTwice(v: nat, k: nat)
    ensures v / Pow2(k) / 2 == v / Pow2(k + 1)
  {
    var q := v / Pow2(k);
    DivModUnique(v, Pow2(k + 1), q / 2, (q % 2) * Pow2(k) + v % Pow2(k));
  }

  /** One more halving of `v / 2^k` is `v / 2^(k+1)` and uses up one step
      of the exponent. */
  lemma HalveStep(v: nat, k: nat, x: nat)
    requires x == v / Pow2(k) && x >= 0x100 && k + Exponent(x) == Exponent(v)
    ensures x / 2 == v / Pow2(k + 1) && k + 1 + Exponent(x / 2) == Exponent(v)
  {
    HalveTwice(v, k);
  }

  /** After `Exponent(v)` halvings `v` fits in a byte, and with one halving
      fewer it did not. */
  lemma {:induction false} ExponentMinimal(v: nat)
    ensures v / Pow2(Exponent(v)) < 0x100
    ensures Exponent(v) > 0 ==> v / Pow2(Exponent(v) - 1) >= 0x100
  {
    if v >= 0x100 {
      var e := Exponent(v / 2);
      ExponentMinimal(v / 2);
      HalveTwice(v, e);
      assert v / Pow2(e + 1) == v / 2 / Pow2(e) by {
        DivOfDiv(v, 2, Pow2(e));
      }
      if e > 0 {
        HalveTwice(v, e - 1);
        assert v / Pow2(e) == v / 2 / Pow2(e - 1) by {
          DivOfDiv(v, 2, Pow2(e - 1));
        }
      }
    }
  }

  lemma DivOfDiv(v: nat, a: nat, b: nat)
    requires a > 0 && b > 0
    ensures v / a / b == v / (a * b)
  {
    var q, r1 := v / a, v % a;
    var q2, r2 := q / b, q % b;
    assert v == a * (b * q2 + r2) + r1;
    assert v == (a * b) * q2 + (a * r2 + r1);
    MulLe(r2, b - 1, a);
    assert a * r2 + r1 < a * b;
    DivModUnique(v, a * b, q2, a * r2 + r1);
  }

  /** A 32-bit value never needs an exponent above 24. */
  lemma {:induction false} ExponentBound(v: nat, n: nat)
    requires v < 0x100 * Pow2(n)
    ensures Exponent(v) <= n
  {
    if v >= 0x100 {
      ExponentBound(v / 2, n - 1);
    }
  }

  lemma Pow2Of24()
    ensures Pow2(24) == 0x100_0000
  {
    assert Pow2(8) == 0x100;
    Pow2Add(8, 8);
    Pow2Add(16, 8);
  }

  /** `EncodeTimeout`'s value: 0 for 0; otherwise exponent in the high byte
      and `(m - 1) >> exponent` in the low byte. */
  function EncodedTimeout(m: U32): (r: U16) {
    if m == 0 then 0
    else
      ExponentFits(m - 1);
      Exponent(m - 1) * 0x100 + (m - 1) / Pow2(Exponent(m - 1))
  }

  /** A 32-bit value needs at most 24 halvings to fit in a byte. */
  lemma ExponentFits(v: nat)
    requires v < 0x1_0000_0000
    ensures Exponent(v) <= 24 && v / Pow2(Exponent(v)) < 0x100
    ensures 0 <= Exponent(v) * 0x100 + v / Pow2(Exponent(v)) < 0x1_0000
  {
    var e := Exponent(v);
    assert e <= 24 && v / Pow2(e) < 0x100 by {
      Pow2Of24();
      ExponentBound(v, 24);
      ExponentMinimal(v);
    }
    DivBounds(v, Pow2(e));
    ByteFields(e, v / Pow2(e));
  }

  lemma ByteFields(hi: nat, lo: nat)
    requires hi <= 24 && lo < 0x100
    ensures hi * 0x100 + lo < 0x1_0000
  {
  }

  /** `DecodeTimeout`: `(lsb << msb) + 1` in 32 bits; shifting a `uint32_t`
      by 32 or more is undefined, hence the requirement. */
  function DecodeTimeout(reg: U16): (r: U32)
    requires reg / 0x100 < 32
  {
    ToU32(ToU32(reg % 0x100 * Pow2(reg / 0x100)) + 1)
  }

  /** The encoding keeps the minimal exponent and the value's top byte. */
  lemma EncodedTimeoutFields(m: U32)
    requires m > 0
    ensures EncodedTimeout(m) / 0x100 == Exponent(m - 1) <= 24
    ensures EncodedTimeout(m) % 0x100 == (m - 1) / Pow2(Exponent(m - 1))
    ensures Exponent(m - 1) > 0 ==> (m - 1) / Pow2(Exponent(m - 1) - 1) >= 0x100
  {
    var e := Exponent(m - 1);
    DivBounds(m - 1, Pow2(e));
    var q := (m - 1) / Pow2(e);
    EncodedTimeoutSplit(m);
    DivModUnique(EncodedTimeout(m), 0x100, e, q);
    ExponentMinimal(m - 1);
  }

  lemma DivBounds(x: nat, y: int)
    requires y > 0
    ensures 0 <= x / y <= x
  {
    var q, r := x / y, x % y;
    assert x == q * y + r;
    if q < 0 {
      MulLe(q, -1, y);
    } else if q > x {
      MulLe(1, y, q);
    }
  }

  lemma EncodedTimeoutSplit(m: U32)
    requires m > 0
    ensures Exponent(m - 1) <= 24 && (m - 1) / Pow2(Exponent(m - 1)) < 0x100
    ensures EncodedTimeout(m) == Exponent(m - 1) * 0x100 + (m - 1) / Pow2(Exponent(m - 1))
  {
    ExponentFits(m - 1);
  }

  /** Without 32-bit overflow `DecodeTimeout` is `lsb * 2^msb + 1`. */
  lemma DecodeExact(reg: U16)
    requires reg / 0x100 < 32
    requires reg % 0x100 * Pow2(reg / 0x100) < 0x1_0000_0000 - 1
    ensures DecodeTimeout(reg) == reg % 0x100 * Pow2(reg / 0x100) + 1
  {
  }

  /** Decoding an encoded timeout never gives more than was asked for, loses
      less than one step of the exponent, and is exact up to 256. */
  lemma DecodeEncode(m: U32)
    requires m > 0
    ensures EncodedTimeout(m) / 0x100 < 32
    ensures var e := EncodedTimeout(m) / 0x100; var d := DecodeTimeout(EncodedTimeout(m));
      && d <= m && m - d < Pow2(e)
    ensures m <= 0x100 ==> DecodeTimeout(EncodedTimeout(m)) == m
  {
    EncodedTimeoutFields(m);
    var r := EncodedTimeout(m);
    var e, q := r / 0x100, r % 0x100;
    var p := Pow2(e);
    QuotientParts(m - 1, p);
    assert q * p <= m - 1;
    DecodeExact(r);
    assert DecodeTimeout(r) == m - (m - 1) % p;
    if m <= 0x100 {
      SmallExponent(m);
    }
  }

  lemma QuotientParts(x: nat, p: int)
    requires p > 0
    ensures x == x / p * p + x % p && 0 <= x % p < p && x / p * p <= x
  {
  }

  /** Values up to 256 are encoded with exponent 0. */
  lemma SmallExponent(m: U32)
    requires 0 < m <= 0x100
    ensures Exponent(m - 1) == 0
  {
    EncodedTimeoutFields(m);
  }

  // ------------------------------------------------- fixed-point conversions

  /** `TimeoutMclksToMicroseconds`: `(m * p + 0x800) >> 12` in 64 bits,
      returned as `uint32_t`. */
  function MclksToMicroseconds(mclks: U32, macroPeriod: U32): U32 {
    ToU32((mclks * macroPeriod + 0x800) / 0x1000)
  }

  /** When the result fits in 32 bits, `MclksToMicroseconds` is
      `m * p / 4096` rounded to nearest: its distance to the exact quotient is
      at most one half. */
  lemma MclksToMicrosecondsRounds(mclks: U32, macroPeriod: U32)
    requires mclks * macroPeriod + 0x800 < 0x100_0000_0000
    ensures var r := MclksToMicroseconds(mclks, macroPeriod);
      r * 0x1000 <= mclks * macroPeriod + 0x800 < r * 0x1000 + 0x1000
  {
    ShiftRounds(mclks * macroPeriod + 0x800);
  }

  lemma ShiftRounds(x: nat)
    requires x < 0x100_0000_0000
    ensures ToU32(x / 0x1000) * 0x1000 <= x < ToU32(x / 0x1000) * 0x1000 + 0x1000
  {
    assert x / 0x1000 < 0x1_0000_0000;
  }

  /** `TimeoutMicrosecondsToMclks`: `((us << 12) + (p >> 1)) / p`, with the
      shift and the sum wrapping in 32 bits. */
  function MicrosecondsToMclks(us: U32, macroPeriod: U32): U32
    requires macroPeriod > 0
  {
    var x := ToU32(ToU32(us * 0x1000) + macroPeriod / 2);
    DivBounds(x, macroPeriod);
    x / macroPeriod
  }

  /** Without wrapping, `MicrosecondsToMclks` is `us * 4096 / p` rounded to
      nearest. */
  lemma MicrosecondsToMclksRounds(us: U32, macroPeriod: U32)
    requires macroPeriod > 0
    requires us * 0x1000 + macroPeriod / 2 < 0x1_0000_0000
    ensures var r := MicrosecondsToMclks(us, macroPeriod);
      r * macroPeriod <= us * 0x1000 + macroPeriod / 2 < r * macroPeriod + macroPeriod
  {
    var x := us * 0x1000 + macroPeriod / 2;
    assert ToU32(us * 0x1000) == us * 0x1000;
    assert ToU32(x) == x;
    var q := x / macroPeriod;
    assert MicrosecondsToMclks(us, macroPeriod) == q;
    assert x == q * macroPeriod + x % macroPeriod;
  }

  /** `CalcMacroPeriod`: the macro period in 12.12 fixed point for a VCSEL
      period register value and the oscillator frequency, with every `uint32_t`
      product wrapping and the PCLK count truncated to `uint8_t`. */
  function MacroPeriod(vcselPeriod: U8, fastOscFrequency: U16): (r: U32)
    requires fastOscFrequency > 0
    ensures r < 0x400_0000
  {
    var pllPeriod := 0x4000_0000 / fastOscFrequency;
    var pclks := (vcselPeriod + 1) * 2 % 0x100;
    ToU32(ToU32(2304 * pllPeriod) / 64 * pclks) / 64
  }

  /** The budget left for ranging: the fixed overhead removed, never below
      zero and never above `MaxBudgetUs`. */
  function ClampBudget(budgetUs: U32): (r: U32)
    ensures r <= MaxBudgetUs
    ensures budgetUs <= MinBudgetUs ==> r == 0
    ensures MinBudgetUs < budgetUs <= MinBudgetUs + MaxBudgetUs ==> r == budgetUs - MinBudgetUs
    ensures budgetUs > MinBudgetUs + MaxBudgetUs ==> r == MaxBudgetUs
  {
    if budgetUs <= MinBudgetUs then 0
    else if budgetUs - MinBudgetUs > MaxBudgetUs then MaxBudgetUs
    else budgetUs - MinBudgetUs
  }

  /** The phase-calibration timeout: 1000 us in macro periods, capped at a byte. */
  function PhasecalTimeout(macroPeriod: U32): (r: U8)
    requires macroPeriod > 0
    ensures r == 0xff || r == MicrosecondsToMclks(1000, macroPeriod)
    ensures r <= MicrosecondsToMclks(1000, macroPeriod)
  {
    var t := MicrosecondsToMclks(1000, macroPeriod);
    if t > 0xff then 0xff else t
  }

  // ---------------------------------------------- dynamic SPAD selection

  /** The total signal rate per SPAD, in 16.16 format: the sum of the two
      rates clipped to 16 bits, over the SPAD count. */
  function RatePerSpad(r: RangeResults): (rate: U32)
    requires r.dssActualEffectiveSpads > 0
    ensures var total := Min(0xffff, r.peakSignalCountRateCorrected + r.ambientCountRate);
      rate * r.dssActualEffectiveSpads <= total * 0x1_0000 < (rate + 1) * r.dssActualEffectiveSpads
  {
    Min(0xffff, r.peakSignalCountRateCorrected + r.ambientCountRate) * 0x1_0000 / r.dssActualEffectiveSpads
  }

  function Min(a: int, b: int): int { if a < b then a else b }

  /** The SPAD count `UpdateDSS` requests: the mid point 0x8000 if either
      division would be by zero, otherwise the number of SPADs at the
      measured rate that make up the target rate, clipped to 16 bits. */
  function SpadTarget(r: RangeResults): (n: U16) {
    if r.dssActualEffectiveSpads == 0 || RatePerSpad(r) == 0 then 0x8000
    else Min(0xffff, TargetRate * 0x1_0000 / RatePerSpad(r))
  }

  /** Unless clipped, `SpadTarget` SPADs at the measured rate reach the target
      rate, and one more would overshoot it. */
  lemma SpadTargetMeetsRate(r: RangeResults)
    requires r.dssActualEffectiveSpads > 0 && RatePerSpad(r) > 0
    ensures var n, rate := SpadTarget(r), RatePerSpad(r);
      n < 0xffff ==> n * rate <= TargetRate * 0x1_0000 < (n + 1) * rate
  {
    var rate := RatePerSpad(r);
    var q := TargetRate * 0x1_0000 / rate;
    DivModUnique(TargetRate * 0x1_0000, rate, q, TargetRate * 0x1_0000 % rate);
  }

  /** The fallback 0x8000 is written exactly when a division would be by zero. */
  lemma SpadTargetFallback(r: RangeResults)
    ensures r.dssActualEffectiveSpads == 0 ==> SpadTarget(r) == 0x8000
    ensures r.dssActualEffectiveSpads > 0 && RatePerSpad(r) == 0 ==> SpadTarget(r) == 0x8000
    ensures r.dssActualEffectiveSpads > 0 && RatePerSpad(r) > 0 ==> SpadTarget(r) <= TargetRate * 0x1_0000 / RatePerSpad(r)
  {
  }

  // ----------------------------------------------------- a distance reading

  /** The correction gain, rounded to nearest. */
  function Gain(d: U16): (r: U32)
    ensures r <= d
    ensures r * 0x800 <= d * GainFactor + 0x400 < r * 0x800 + 0x800
  {
    (d * GainFactor + 0x400) / 0x800
  }

  /** What `GetDistanceMM` reports for a status byte and a result record:
      nothing while bit 0 of the status is set, nothing unless the range is
      complete with a non-zero stream count, and the corrected range otherwise. */
  function Reading(status: U8, record: seq<U8>): Option<U32>
    requires |record| == 17
  {
    var r := ParseResults(record);
    if status % 2 == 1 then None
    else if r.rangeStatus != RangeComplete || r.streamCount == 0 then None
    else Some(Gain(r.finalRangeMm))
  }

  /** A distance is reported exactly when the status bit is clear, record byte
      0 is 9 and record byte 2 is not zero; it is the range of bytes 13-14
      scaled by 2011/2048, never more than that range. */
  lemma ReadingReported(status: U8, record: seq<U8>)
    requires |record| == 17
    ensures Reading(status, record).Some?
        <==> status % 2 == 0 && record[0] == 9 && record[2] != 0
    ensures Reading(status, record).Some? ==>
      var d := record[13] as int * 0x100 + record[14];
      Reading(status, record).value == (d * 2011 + 1024) / 2048 <= d
  {
  }

  // -------------------------------------------------------------- registers

  /** Register addresses used below; the register map header is not part of
      this model, so they are parameters. */
  datatype Registers = Registers(
    tioHvStatus: U16,
    interruptClear: U16,
    resultRangeStatus: U16,
    dssSpadsSelect: U16,
    vcselPeriodA: U16,
    vcselPeriodB: U16,
    phasecalTimeout: U16,
    mmTimeoutA: U16,
    rangeTimeoutA: U16,
    mmTimeoutB: U16,
    rangeTimeoutB: U16)

  class VL53L1X {
    const regs: Registers
    /** `fast_osc_frequency_`, read once during initialisation. */
    const fastOscFrequency: U16
    /** `calibrated_`. */
    var calibrated: bool
    /** Every modelled command link sent, in order; the calibration program
        of the first reading is not recorded. */
    ghost var bus: seq<I2cCommand>

    /** The sensor after `Create`: the initialisation program is not
        modelled, only the oscillator frequency it reads. */
    constructor (regs: Registers, fastOscFrequency: U16)
      ensures this.regs == regs && this.fastOscFrequency == fastOscFrequency
      ensures !calibrated && bus == []
    {
      this.regs := regs;
      this.fastOscFrequency := fastOscFrequency;
      calibrated := false;
      bus := [];
    }

    /** `answer` is the byte the sensor returns. */
    method ReadReg8(reg: U16, answer: U8) returns (v: U8)
      modifies this
      ensures v == answer
      ensures calibrated == old(calibrated) && bus == old(bus) + ReadFrames(reg, 1)
    {
      bus := bus + ReadFrames(reg, 1);
      v := answer;
    }

    /** `hi` and `lo` are the bytes the sensor returns, in that order. */
    method ReadReg16(reg: U16, hi: U8, lo: U8) returns (v: U16)
      modifies this
      ensures Bytes16(v) == [hi, lo]
      ensures calibrated == old(calibrated) && bus == old(bus) + ReadFrames(reg, 2)
    {
      bus := bus + ReadFrames(reg, 2);
      v := hi * 0x100 + lo;
      DivModUnique(v, 0x100, hi, lo);
    }

    /** `answer` holds the four bytes the sensor returns, in order. */
    method ReadReg32(reg: U16, answer: seq<U8>) returns (v: U32)
      requires |answer| == 4
      modifies this
      ensures Bytes32(v) == answer
      ensures calibrated == old(calibrated) && bus == old(bus) + ReadFrames(reg, 4)
    {
      bus := bus + ReadFrames(reg, 4);
      v := answer[0] as int * 0x100_0000 + answer[1] as int * 0x1_0000 + answer[2] as int * 0x100 + answer[3];
      var a0, a1, a2, a3: int := answer[0], answer[1], answer[2], answer[3];
      DivModUnique(v, 0x100, a0 * 0x1_0000 + a1 * 0x100 + a2, a3);
      DivModUnique(v, 0x1_0000, a0 * 0x100 + a1, a2 * 0x100 + a3);
      DivModUnique(v, 0x100_0000, a0, a1 * 0x1_0000 + a2 * 0x100 + a3);
      DivModUnique(v / 0x100, 0x100, a0 * 0x100 + a1, a2);
      DivModUnique(v / 0x1_0000, 0x100, a0, a1);
    }

    method WriteReg8(reg: U16, value: U8)
      modifies this
      ensures calibrated == old(calibrated) && bus == old(bus) + [WriteFrame(reg, [value])]
    {
      bus := bus + [WriteFrame(reg, [value])];
    }

    method WriteReg16(reg: U16, value: U16)
      modifies this
      ensures calibrated == old(calibrated) && bus == old(bus) + [WriteFrame(reg, Bytes16(value))]
    {
      bus := bus + [WriteFrame(reg, Bytes16(value))];
    }

    /** `WriteReg32` as written: the value parameter is `uint16_t`, so a
        32-bit argument is truncated at the call and the two high bytes sent
        are always zero. */
    method WriteReg32AsWritten(reg: U16, value: U32)
      modifies this
      ensures calibrated == old(calibrated) && bus == old(bus) + [WriteFrame(reg, Bytes32(value % 0x1_0000))]
    {
      var v16: U16 := value % 0x1_0000;
      bus := bus + [WriteFrame(reg, [v16 / 0x100_0000 % 0x100, v16 / 0x1_0000 % 0x100, v16 / 0x100 % 0x100, v16 % 0x100])];
    }

    /** `WriteReg32` with a 32-bit value parameter: all four bytes of the value. */
    method WriteReg32(reg: U16, value: U32)
      modifies this
      ensures calibrated == old(calibrated) && bus == old(bus) + [WriteFrame(reg, Bytes32(value))]
    {
      bus := bus + [WriteFrame(reg, [value / 0x100_0000 % 0x100, value / 0x1_0000 % 0x100, value / 0x100 % 0x100, value % 0x100])];
    }

    /** Reads the record into memory, then byte-swaps each 16-bit field.
        `record` is what the sensor returns. */
    method ReadResults(record: seq<U8>) returns (r: RangeResults)
      requires |record| == 17
      modifies this
      ensures r == ParseResults(record)
      ensures calibrated == old(calibrated)
      ensures bus == old(bus) + ReadFrames(regs.resultRangeStatus, 17)
    {
      bus := bus + ReadFrames(regs.resultRangeStatus, 17);
      var b := record;
      r := RangeResults(b[0], b[1], b[2],
        LittleEndian16(b[3], b[4]), LittleEndian16(b[5], b[6]), LittleEndian16(b[7], b[8]),
        LittleEndian16(b[9], b[10]), LittleEndian16(b[11], b[12]), LittleEndian16(b[13], b[14]),
        LittleEndian16(b[15], b[16]));
      // The data arrives big-endian.
      r := r.(dssActualEffectiveSpads := Bswap16(r.dssActualEffectiveSpads));
      r := r.(peakSignalCountRate := Bswap16(r.peakSignalCountRate));
      r := r.(ambientCountRate := Bswap16(r.ambientCountRate));
      r := r.(sigma := Bswap16(r.sigma));
      r := r.(phase := Bswap16(r.phase));
      r := r.(finalRangeMm := Bswap16(r.finalRangeMm));
      r := r.(peakSignalCountRateCorrected := Bswap16(r.peakSignalCountRateCorrected));
      SwapOfLittleEndian(b[3], b[4]);
      SwapOfLittleEndian(b[5], b[6]);
      SwapOfLittleEndian(b[7], b[8]);
      SwapOfLittleEndian(b[9], b[10]);
      SwapOfLittleEndian(b[11], b[12]);
      SwapOfLittleEndian(b[13], b[14]);
      SwapOfLittleEndian(b[15], b[16]);
    }

    /** Dynamic SPAD selection: one write of the requested SPAD count. */
    method UpdateDss(results: RangeResults)
      modifies this
      ensures calibrated == old(calibrated)
      ensures bus == old(bus) + [WriteFrame(regs.dssSpadsSelect, Bytes16(SpadTarget(results)))]
    {
      var spadCount := results.dssActualEffectiveSpads;
      if spadCount != 0 {
        var totalRatePerSpad := results.peakSignalCountRateCorrected + results.ambientCountRate;
        totalRatePerSpad := if 0xffff < totalRatePerSpad then 0xffff else totalRatePerSpad;
        totalRatePerSpad := totalRatePerSpad * 0x1_0000;
        totalRatePerSpad := totalRatePerSpad / spadCount;
        if totalRatePerSpad != 0 {
          var requiredSpads := TargetRate * 0x1_0000 / totalRatePerSpad;
          requiredSpads := if 0xffff < requiredSpads then 0xffff else requiredSpads;
          WriteReg16(regs.dssSpadsSelect, requiredSpads);
          return;
        }
      }
      // Set the target to the mid point.
      WriteReg16(regs.dssSpadsSelect, 0x8000);
    }

    /** The links a reading with a clear status bit sends: the status read,
        the record read, the SPAD target write and the interrupt clear. */
    ghost function ReadingFrames(status: U8, record: seq<U8>): seq<I2cCommand>
      requires |record| == 17
      reads this
    {
      ReadFrames(regs.tioHvStatus, 1) + ReadFrames(regs.resultRangeStatus, 17)
        + [WriteFrame(regs.dssSpadsSelect, Bytes16(SpadTarget(ParseResults(record))))]
        + [WriteFrame(regs.interruptClear, [1])]
    }

    /** `status` is the answer to the interrupt-status read and `record` the
        result record; the manual calibration run on the first reading is
        represented only by `calibrated`. */
    method GetDistanceMm(status: U8, record: seq<U8>) returns (distanceMm: Option<U32>)
      requires |record| == 17
      modifies this
      ensures distanceMm == Reading(status, record)
      ensures status % 2 == 1 ==> calibrated == old(calibrated) && bus == old(bus) + ReadFrames(regs.tioHvStatus, 1)
      ensures status % 2 == 0 ==> calibrated && bus == old(bus) + ReadingFrames(status, record)
    {
      var s := ReadReg8(regs.tioHvStatus, status);
      if s % 2 == 1 {
        return None;
      }
      var results := ReadResults(record);
      if !calibrated {
        calibrated := true;
      }
      UpdateDss(results);
      WriteReg8(regs.interruptClear, 0x01);
      assert bus == old(bus) + ReadingFrames(status, record);
      if results.rangeStatus != RangeComplete || results.streamCount == 0 {
        return None;
      }
      var d: U32 := results.finalRangeMm;
      d := (d * GainFactor + 0x0400) / 0x0800;
      return Some(d);
    }

    /** `vcselA` and `vcselB` are the answers to the two VCSEL period reads;
        a macro period of zero would divide by zero. */
    method SetMeasurementTimingBudget(budgetUs: U32, vcselA: U8, vcselB: U8)
      requires fastOscFrequency > 0
      requires MacroPeriod(vcselA, fastOscFrequency) > 0 && MacroPeriod(vcselB, fastOscFrequency) > 0
      modifies this
      ensures calibrated == old(calibrated)
      ensures var a, b, range := MacroPeriod(vcselA, fastOscFrequency), MacroPeriod(vcselB, fastOscFrequency),
          ClampBudget(budgetUs) / 2;
        bus == old(bus) + ReadFrames(regs.vcselPeriodA, 1)
          + [WriteFrame(regs.phasecalTimeout, [PhasecalTimeout(a)])]
          + [WriteFrame(regs.mmTimeoutA, Bytes16(EncodedTimeout(MicrosecondsToMclks(1, a))))]
          + [WriteFrame(regs.rangeTimeoutA, Bytes16(EncodedTimeout(MicrosecondsToMclks(range, a))))]
          + ReadFrames(regs.vcselPeriodB, 1)
          + [WriteFrame(regs.mmTimeoutB, Bytes16(EncodedTimeout(MicrosecondsToMclks(1, b))))]
          + [WriteFrame(regs.rangeTimeoutB, Bytes16(EncodedTimeout(MicrosecondsToMclks(range, b))))]
    {
      var budget := budgetUs;
      budget := if MinBudgetUs < budget then budget else MinBudgetUs;
      budget := budget - MinBudgetUs;
      budget := if MaxBudgetUs < budget then MaxBudgetUs else budget;
      var rangeTimeoutUs := budget / 2;
      assert rangeTimeoutUs == ClampBudget(budgetUs) / 2;

      var vcsel := ReadReg8(regs.vcselPeriodA, vcselA);
      var macroPeriodUs := MacroPeriod(vcsel, fastOscFrequency);
      var phasecal := MicrosecondsToMclks(1000, macroPeriodUs);
      phasecal := if 0xff < phasecal then 0xff else phasecal;
      assert phasecal == PhasecalTimeout(macroPeriodUs);
      WriteReg8(regs.phasecalTimeout, phasecal);
      var encoded := EncodeTimeout(MicrosecondsToMclks(1, macroPeriodUs));
      WriteReg16(regs.mmTimeoutA, encoded);
      encoded := EncodeTimeout(MicrosecondsToMclks(rangeTimeoutUs, macroPeriodUs));
      WriteReg16(regs.rangeTimeoutA, encoded);

      vcsel := ReadReg8(regs.vcselPeriodB, vcselB);
      macroPeriodUs := MacroPeriod(vcsel, fastOscFrequency);
      encoded := EncodeTimeout(MicrosecondsToMclks(1, macroPeriodUs));
      WriteReg16(regs.mmTimeoutB, encoded);
      encoded := EncodeTimeout(MicrosecondsToMclks(rangeTimeoutUs, macroPeriodUs));
      WriteReg16(regs.rangeTimeoutB, encoded);
    }
  }

  /** `EncodeTimeout`: halve until the value fits in a byte, counting the
      halvings. */
  method EncodeTimeout(timeoutMclks: U32) returns (r: U16)
    ensures r == EncodedTimeout(timeoutMclks)
  {
    if timeoutMclks > 0 {
      var lsByte, msByte := Halvings(timeoutMclks - 1);
      ExponentFits(timeoutMclks - 1);
      ByteFields(msByte, lsByte);
      assert lsByte % 0x100 == lsByte;
      r := msByte * 0x100 + lsByte % 0x100;
    } else {
      r := 0;
    }
  }

  /** The loop of `EncodeTimeout`: `lsByte` halved while a bit above its low
      byte is set, `msByte` counting the halvings. */
  method Halvings(v: nat) returns (lsByte: nat, msByte: nat)
    ensures msByte == Exponent(v) && lsByte == v / Pow2(Exponent(v))
  {
    lsByte := v;
    msByte := 0;
    // `(lsByte & 0xFFFFFF00) > 0`: a bit above the low byte is set.
    while lsByte >= 0x100
      invariant lsByte == v / Pow2(msByte)
      invariant msByte + Exponent(lsByte) == Exponent(v)
      decreases lsByte
    {
      HalveStep(v, msByte, lsByte);
      lsByte := lsByte / 2;
      msByte := msByte + 1;
    }
  }

  /** A 32-bit argument of the `uint16_t` parameter loses its high half:
      0x10000 is sent as four zero bytes. */
  lemma WriteReg32Truncates()
    ensures Bytes32(0x1_0000 % 0x1_0000) == [0, 0, 0, 0] != Bytes32(0x1_0000)
  {
  }

  /** As written, the two high bytes are always zero, and the value is sent
      intact exactly when it fits in 16 bits. */
  lemma WriteReg32AsWrittenBytes(value: U32)
    ensures Bytes32(value % 0x1_0000)[..2] == [0, 0]
    ensures Bytes32(value % 0x1_0000) == Bytes32(value) <==> value < 0x1_0000
  {
    if Bytes32(value % 0x1_0000) == Bytes32(value) {
      assert value % 0x1_0000 == value;
    }
  }

  /** The corrected `WriteReg32` sends the value itself: its register bytes and
      value bytes decode back to the arguments. */
  lemma WriteReg32Decodes(reg: U16, value: U32)
    ensures var b := WriteFrame(reg, Bytes32(value)).bytes;
      && |b| == 6 && b[0] as int * 0x100 + b[1] == reg
      && b[2] as int * 0x100_0000 + b[3] as int * 0x1_0000 + b[4] as int * 0x100 + b[5] == value
  {
  }
}
