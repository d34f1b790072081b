/** The IMA ADPCM decoder of adpcm_decoder.cpp: the QuickTime IMA nibble
    expansion (as in FFmpeg) and the decoding of one RIB frame. */
module Adpcm {
  import opened ByteOrder

  type Int16 = x: int | -0x8000 <= x < 0x8000

  type StepSize = x: int | 7 <= x <= 32767 witness 7

  predicate IsInt32(x: int)
  {
    -0x8000_0000 <= x < 0x8000_0000
  }

  /** The 89 step sizes of the IMA ADPCM reference, in its rows of ten. */
  const StepTable: seq<StepSize> :=
    StepRow0 + (StepRow1 + (StepRow2 + (StepRow3 + (StepRow4 +
    (StepRow5 + (StepRow6 + (StepRow7 + StepRow8)))))))

  const StepRow0: seq<StepSize> := [7,     8,     9,     10,    11,    12,    13,    14,    16,    17]
  const StepRow1: seq<StepSize> := [19,    21,    23,    25,    28,    31,    34,    37,    41,    45]
  const StepRow2: seq<StepSize> := [50,    55,    60,    66,    73,    80,    88,    97,    107,   118]
  const StepRow3: seq<StepSize> := [130,   143,   157,   173,   190,   209,   230,   253,   279,   307]
  const StepRow4: seq<StepSize> := [337,   371,   408,   449,   494,   544,   598,   658,   724,   796]
  const StepRow5: seq<StepSize> := [876,   963,   1060,  1166,  1282,  1411,  1552,  1707,  1878,  2066]
  const StepRow6: seq<StepSize> := [2272,  2499,  2749,  3024,  3327,  3660,  4026,  4428,  4871,  5358]
  const StepRow7: seq<StepSize> := [5894,  6484,  7132,  7845,  8630,  9493,  10442, 11487, 12635, 13899]
  const StepRow8: seq<StepSize> := [15289, 16818, 18500, 20350, 22385, 24623, 27086, 29794, 32767]

  /** The step-index adjustment for each of the 16 nibble values. */
  const IndexTable: seq<int> :=
    [-1, -1, -1, -1, 2, 4, 6, 8,
     -1, -1, -1, -1, 2, 4, 6, 8]

  predicate Increasing(s: seq<int>)
  {
    forall i :: 0 <= i < |s| - 1 ==> s[i] < s[i + 1]
  }

  lemma IncreasingConcat(a: seq<int>, b: seq<int>)
    requires Increasing(a) && Increasing(b)
    requires a != [] && b != [] ==> a[|a| - 1] < b[0]
    ensures Increasing(a + b)
  {
    forall i | 0 <= i < |a + b| - 1
      ensures (a + b)[i] < (a + b)[i + 1]
    {
      if i >= |a| {
        assert (a + b)[i] == b[i - |a|];
      }
    }
  }

  /** The step table has 89 entries, strictly increasing from 7 to 32767. */
  lemma StepTableIncreasing()
    ensures |StepTable| == 89 && StepTable[0] == 7 && StepTable[88] == 32767
    ensures Increasing(StepTable)
  {
    var t := StepRow8;
    assert Increasing(t);
    assert Increasing(StepRow7);
    IncreasingConcat(StepRow7, t);
    t := StepRow7 + t;
    assert Increasing(StepRow6);
    IncreasingConcat(StepRow6, t);
    t := StepRow6 + t;
    assert Increasing(StepRow5);
    IncreasingConcat(StepRow5, t);
    t := StepRow5 + t;
    assert Increasing(StepRow4);
    IncreasingConcat(StepRow4, t);
    t := StepRow4 + t;
    assert Increasing(StepRow3);
    IncreasingConcat(StepRow3, t);
    t := StepRow3 + t;
    assert Increasing(StepRow2);
    IncreasingConcat(StepRow2, t);
    t := StepRow2 + t;
    assert Increasing(StepRow1);
    IncreasingConcat(StepRow1, t);
    t := StepRow1 + t;
    assert Increasing(StepRow0);
    IncreasingConcat(StepRow0, t);
  }

  /** Entries n and n + 8 agree: -1 for n in 0..3, then 2, 4, 6, 8. */
  lemma IndexTableShape()
    ensures |IndexTable| == 16
    ensures forall n :: 0 <= n < 8 ==> IndexTable[n] == IndexTable[n + 8]
    ensures forall n :: 0 <= n < 4 ==> IndexTable[n] == -1
    ensures forall n :: 4 <= n < 8 ==> IndexTable[n] == 2 * (n - 3)
  {
  }

  /** `adpcm_clip_int16`: saturate a C `int` to the int16 range. */
  function ClipInt16(a: int): (r: Int16)
    requires IsInt32(a)
    ensures -0x8000 <= a <= 0x7FFF ==> r == a
    ensures a > 0x7FFF ==> r == 0x7FFF
    ensures a < -0x8000 ==> r == -0x8000
  {
    // `(a + 0x8000U) & ~0xFFFF` is nonzero exactly when the 32-bit unsigned
    // sum has a bit set above bit 15
    if (a + 0x8000) % 0x1_0000_0000 / 0x1_0000 != 0 then
      // `(a >> 31) ^ 0x7FFF`: the arithmetic shift yields 0 or -1, so the
      // result truncated to int16 is 0x7FFF or 0x8000
      if a < 0 then -0x8000 else 0x7FFF
    else
      a
  }

  function Clamp(x: int, lo: int, hi: int): int
    requires lo <= hi
  {
    if x < lo then lo else if hi < x then hi else x
  }

  /** The adaptive state of one channel while a frame is decoded. */
  datatype ChannelState = ChannelState(predictor: int, stepIndex: int)
  {
    predicate Valid()
    {
      -0x8000 <= predictor < 0x8000 && 0 <= stepIndex <= 88
    }
  }

  /** The magnitude of the difference a nibble encodes at a given step:
      `step >> 3` plus `step`, `step >> 1` and `step >> 2` for bits 2, 1 and 0. */
  function Magnitude(step: StepSize, nibble: int): (d: int)
    ensures step / 8 <= d <= step / 8 + step + step / 2 + step / 4
  {
    step / 8
    + (if nibble / 4 % 2 == 1 then step else 0)
    + (if nibble / 2 % 2 == 1 then step / 2 else 0)
    + (if nibble % 2 == 1 then step / 4 else 0)
  }

  /** The state after `adpcm_ima_qt_expand_nibble`: the step is taken at the old
      step index, bit 3 selects the sign of the difference, the new predictor is
      clipped to int16, and the step index moves by the index table, clamped to [0, 88]. */
  function Expand(s: ChannelState, nibble: int): (r: ChannelState)
    requires s.Valid() && 0 <= nibble < 16
    ensures r.Valid()
  {
    StepTableIncreasing();
    var diff := Magnitude(StepTable[s.stepIndex], nibble);
    var predictor := if nibble / 8 % 2 == 1 then s.predictor - diff else s.predictor + diff;
    ChannelState(ClipInt16(predictor), Clamp(s.stepIndex + IndexTable[nibble], 0, 88))
  }

  /** A nibble whose low three bits are below 4 moves the step index down by one
      (not below 0); otherwise it moves it up by 2, 4, 6 or 8 (not above 88). */
  lemma ExpandStepIndex(s: ChannelState, nibble: int)
    requires s.Valid() && 0 <= nibble < 16
    ensures var r := Expand(s, nibble);
      if nibble % 8 < 4 then
        r.stepIndex == if s.stepIndex == 0 then 0 else s.stepIndex - 1
      else
        r.stepIndex == if s.stepIndex + 2 * (nibble % 8 - 3) > 88 then 88 else s.stepIndex + 2 * (nibble % 8 - 3)
  {
    IndexTableShape();
    assert IndexTable[nibble] == IndexTable[nibble % 8];
  }

  /** Bit 3 of the nibble decides the direction the predictor moves; it moves by
      exactly the magnitude unless the int16 clip stops it at -32768 or 32767. */
  lemma ExpandPredictor(s: ChannelState, nibble: int)
    requires s.Valid() && 0 <= nibble < 16
    ensures var r := Expand(s, nibble);
      var diff := Magnitude(StepTable[s.stepIndex], nibble);
      && (nibble >= 8 ==> r.predictor == if s.predictor - diff < -0x8000 then -0x8000 else s.predictor - diff)
      && (nibble < 8 ==> r.predictor == if s.predictor + diff > 0x7FFF then 0x7FFF else s.predictor + diff)
      && (nibble >= 8 ==> r.predictor <= s.predictor)
      && (nibble < 8 ==> r.predictor >= s.predictor)
  {
  }

  /** Only the nibble's low three bits enter the magnitude. */
  lemma MagnitudeLowBits(step: StepSize, nibble: int)
    requires 0 <= nibble < 16
    ensures Magnitude(step, nibble) == Magnitude(step, nibble % 8)
  {
    if nibble >= 8 {
      var k := nibble - 8;
      assert nibble % 8 == k;
      assert nibble / 4 == k / 4 + 2 && nibble / 2 == k / 2 + 4;
    }
  }

  lemma MagnitudeSuccessor(step: StepSize, k: int)
    requires 0 <= k < 7
    ensures Magnitude(step, k) <= Magnitude(step, k + 1)
  {
    // the smaller bits together weigh no more than a larger one
    assert step / 4 <= step / 2 && step / 2 + step / 4 <= step;
    if k == 0 {} else if k == 1 {} else if k == 2 {} else if k == 3 {}
    else if k == 4 {} else if k == 5 {}
  }

  /** The magnitude grows with the nibble's low three bits. */
  lemma MagnitudeMonotone(step: StepSize, n: int, m: int)
    requires 0 <= n < 16 && 0 <= m < 16 && n % 8 <= m % 8
    ensures Magnitude(step, n) <= Magnitude(step, m)
  {
    MagnitudeLowBits(step, n);
    MagnitudeLowBits(step, m);
    var k := n % 8;
    while k < m % 8
      invariant n % 8 <= k <= m % 8
      invariant Magnitude(step, n % 8) <= Magnitude(step, k)
    {
      MagnitudeSuccessor(step, k);
      k := k + 1;
    }
  }

  /** The magnitude is `(2k + 1) * step / 8` for the nibble's low three bits `k`,
      rounded down in three places: it falls short of the exact value by less than 18/8. */
  lemma MagnitudeApproximates(step: StepSize, nibble: int)
    requires 0 <= nibble < 16
    ensures 0 <= (2 * (nibble % 8) + 1) * step - 8 * Magnitude(step, nibble) < 18
  {
    MagnitudeLowBits(step, nibble);
    LowBitsApproximate(step, nibble % 8);
  }

  /** The magnitude of a 3-bit code, bit by bit. */
  lemma MagnitudeBits(step: StepSize, k: int)
    requires 0 <= k < 8
    ensures Magnitude(step, k)
         == step / 8 + (if k >= 4 then step else 0) + (if k % 4 >= 2 then step / 2 else 0)
            + (if k % 2 == 1 then step / 4 else 0)
  {
  }

  lemma LowBitsApproximate(step: StepSize, k: int)
    requires 0 <= k < 8
    ensures 0 <= (2 * k + 1) * step - 8 * Magnitude(step, k) < 18
  {
    hide Magnitude;
    MagnitudeBits(step, k);
    var m := Magnitude(step, k);
    // the three shifts each drop a remainder below their divisor
    var q8, q2, q4 := step / 8, step / 2, step / 4;
    var r8, r2, r4 := step - 8 * q8, step - 2 * q2, step - 4 * q4;
    assert 0 <= r8 < 8 && 0 <= r2 < 2 && 0 <= r4 < 4;
    var lhs := (2 * k + 1) * step;
    if k == 0 {
      assert lhs == step && 8 * m == step - r8;
    } else if k == 1 {
      assert lhs == 3 * step && 8 * m == 3 * step - r8 - 2 * r4;
    } else if k == 2 {
      assert lhs == 5 * step && 8 * m == 5 * step - r8 - 4 * r2;
    } else if k == 3 {
      assert lhs == 7 * step && 8 * m == 7 * step - r8 - 4 * r2 - 2 * r4;
    } else if k == 4 {
      assert lhs == 9 * step && 8 * m == 9 * step - r8;
    } else if k == 5 {
      assert lhs == 11 * step && 8 * m == 11 * step - r8 - 2 * r4;
    } else if k == 6 {
      assert lhs == 13 * step && 8 * m == 13 * step - r8 - 4 * r2;
    } else {
      assert lhs == 15 * step && 8 * m == 15 * step - r8 - 4 * r2 - 2 * r4;
    }
  }

  /** `ADPCMChannelStatus` as the decoder uses it: the predictor and the step
      index, updated in place by each nibble. */
  class ChannelStatus {
    var predictor: int
    var stepIndex: int

    /** A value-initialised status: every field is zero. */
    constructor ()
      ensures predictor == 0 && stepIndex == 0
    {
      predictor := 0;
      stepIndex := 0;
    }

    function State(): ChannelState
      reads this
    {
      ChannelState(predictor, stepIndex)
    }
  }

  /** `adpcm_ima_qt_expand_nibble`: decode one nibble, update the status in place
      and return the new predictor, which is the decoded sample. */
  method ExpandNibble(c: ChannelStatus, nibble: int) returns (sample: int)
    requires c.State().Valid() && 0 <= nibble < 16
    modifies c
    ensures c.State() == Expand(old(c.State()), nibble)
    ensures sample == c.predictor
  {
    var step: int := StepTable[c.stepIndex];
    var stepIndex := c.stepIndex + IndexTable[nibble];
    stepIndex := Clamp(stepIndex, 0, 88);

    var diff: int := step / 8;
    if nibble / 4 % 2 == 1 {
      diff := diff + step;
    }
    if nibble / 2 % 2 == 1 {
      diff := diff + step / 2;
    }
    if nibble % 2 == 1 {
      diff := diff + step / 4;
    }

    var predictor;
    if nibble / 8 % 2 == 1 {
      predictor := c.predictor - diff;
    } else {
      predictor := c.predictor + diff;
    }

    c.predictor := ClipInt16(predictor);
    c.stepIndex := stepIndex;
    sample := c.predictor;
  }

  /** A signed char read from an unsigned byte. */
  function Int8Of(b: Byte): int
  {
    if b < 0x80 then b else b - 0x100
  }

  /** The header predictor: `(((uint32_t)in[1]) << 8) | (uint8_t)in[0]` stored
      into an `int`. Byte 1 is a signed char, so the cast sign-extends it. */
  function HeaderPredictor(b0: Byte, b1: Byte): (p: int)
    ensures p == Int8Of(b1) * 0x100 + b0
  {
    var high := Int8Of(b1) % 0x1_0000_0000 * 0x100 % 0x1_0000_0000;
    // the low byte of `high` is zero, so the bitwise or is a sum
    var u := high + b0;
    assert b1 >= 0x80 ==> Int8Of(b1) % 0x1_0000_0000 == b1 - 0x100 + 0x1_0000_0000;
    if u >= 0x8000_0000 then u - 0x1_0000_0000 else u
  }

  /** The two's-complement bit pattern of an int16. */
  function Uint16Of(v: Int16): nat
  {
    if v < 0 then v + 0x1_0000 else v
  }

  /** The header predictor is bytes 0 and 1 read as a little-endian int16:
      written back little-endian, it gives the same two bytes. */
  lemma HeaderPredictorIsSignedLittleEndian(b0: Byte, b1: Byte)
    ensures -0x8000 <= HeaderPredictor(b0, b1) < 0x8000
    ensures LittleEndian(Uint16Of(HeaderPredictor(b0, b1)), 2) == [b0, b1]
  {
    var p := HeaderPredictor(b0, b1);
    if b1 < 0x80 {
      assert p == b1 * 0x100 + b0;
    } else {
      assert Int8Of(b1) % 0x1_0000_0000 == b1 - 0x100 + 0x1_0000_0000;
      assert p == b1 * 0x100 + b0 - 0x1_0000;
    }
    var u := Uint16Of(p);
    assert u == b1 * 0x100 + b0;
    assert u % 0x100 == b0 && u / 0x100 == b1;
    assert LittleEndian(u / 0x100, 1) == [b1];
  }

  /** The fresh state a frame header seeds: bytes 0 and 1 give the predictor,
      byte 2 the step index; byte 3 is not read. */
  function HeaderState(frame: seq<Byte>): (s: ChannelState)
    requires |frame| >= 4 && frame[2] <= 88
    ensures s.Valid()
  {
    HeaderPredictorIsSignedLittleEndian(frame[0], frame[1]);
    ChannelState(HeaderPredictor(frame[0], frame[1]), Int8Of(frame[2]))
  }

  /** Nibble k of a frame's payload: the low, then the high nibble of byte 4 + k / 2. */
  function Nibble(frame: seq<Byte>, k: int): (n: int)
    requires 0 <= k < 2 * (|frame| - 4)
    ensures 0 <= n < 16
  {
    if k % 2 == 0 then frame[4 + k / 2] % 0x10 else frame[4 + k / 2] / 0x10
  }

  /** The channel state once the first k nibbles of a frame are decoded,
      starting from the state its header seeds. */
  function StateAt(frame: seq<Byte>, k: int): (r: ChannelState)
    requires |frame| >= 4 && frame[2] <= 88 && 0 <= k <= 2 * (|frame| - 4)
    ensures r.Valid()
    decreases k
  {
    if k == 0 then HeaderState(frame) else Expand(StateAt(frame, k - 1), Nibble(frame, k - 1))
  }

  /** The samples a frame has given once its first k nibbles are decoded:
      the predictor the header seeds, then the predictor after each nibble. */
  function SamplesUpTo(frame: seq<Byte>, k: int): (r: seq<Int16>)
    requires |frame| >= 4 && frame[2] <= 88 && 0 <= k <= 2 * (|frame| - 4)
    ensures |r| == k + 1
    decreases k
  {
    if k == 0 then [HeaderState(frame).predictor]
    else SamplesUpTo(frame, k - 1) + [StateAt(frame, k).predictor]
  }

  /** The samples a whole frame decodes to. */
  function FrameSamples(frame: seq<Byte>): (r: seq<Int16>)
    requires |frame| >= 4 && frame[2] <= 88
    ensures |r| == 1 + 2 * (|frame| - 4)
  {
    SamplesUpTo(frame, 2 * (|frame| - 4))
  }

  /** Sample j of the samples given so far is the predictor once j nibbles are decoded. */
  lemma {:induction false} SamplesUpToAt(frame: seq<Byte>, k: int, j: int)
    requires |frame| >= 4 && frame[2] <= 88 && 0 <= j <= k <= 2 * (|frame| - 4)
    ensures SamplesUpTo(frame, k)[j] == StateAt(frame, j).predictor
    decreases k
  {
    if j < k {
      SamplesUpToAt(frame, k - 1, j);
    }
  }

  /** A frame of n bytes decodes to 1 + 2 * (n - 4) samples: the header
      predictor (bytes 0 and 1 as a little-endian int16), then, for each
      nibble in payload order, the predictor that nibble leaves. */
  lemma FrameSampleAt(frame: seq<Byte>, k: int)
    requires |frame| >= 4 && frame[2] <= 88 && 0 <= k <= 2 * (|frame| - 4)
    ensures |FrameSamples(frame)| == 1 + 2 * (|frame| - 4)
    ensures FrameSamples(frame)[k] == StateAt(frame, k).predictor
    ensures LittleEndian(Uint16Of(FrameSamples(frame)[0]), 2) == frame[..2]
  {
    SamplesUpToAt(frame, 2 * (|frame| - 4), k);
    SamplesUpToAt(frame, 2 * (|frame| - 4), 0);
    HeaderPredictorIsSignedLittleEndian(frame[0], frame[1]);
    assert frame[..2] == [frame[0], frame[1]];
  }

  /** From one sample of a frame to the next, the predictor moves by the
      magnitude the next nibble encodes at the current step, down when the
      nibble's bit 3 is set and up otherwise, unless it saturates at the
      int16 bounds. */
  lemma FrameSampleStep(frame: seq<Byte>, k: int)
    requires |frame| >= 4 && frame[2] <= 88 && 0 <= k < 2 * (|frame| - 4)
    ensures var r := FrameSamples(frame);
      var s := StateAt(frame, k);
      var n := Nibble(frame, k);
      var diff := Magnitude(StepTable[s.stepIndex], n);
      && (n >= 8 ==> r[k + 1] == if r[k] - diff < -0x8000 then -0x8000 else r[k] - diff)
      && (n < 8 ==> r[k + 1] == if r[k] + diff > 0x7FFF then 0x7FFF else r[k] + diff)
      && (n >= 8 ==> r[k + 1] <= r[k])
      && (n < 8 ==> r[k + 1] >= r[k])
  {
    FrameSampleAt(frame, k);
    FrameSampleAt(frame, k + 1);
    ExpandPredictor(StateAt(frame, k), Nibble(frame, k));
  }

  /** Changing header byte 3 changes neither the states nor the samples so far. */
  lemma {:induction false} PrefixIgnoresByte3(frame: seq<Byte>, x: Byte, k: int)
    requires |frame| >= 4 && frame[2] <= 88 && 0 <= k <= 2 * (|frame| - 4)
    ensures StateAt(frame[3 := x], k) == StateAt(frame, k)
    ensures SamplesUpTo(frame[3 := x], k) == SamplesUpTo(frame, k)
    decreases k
  {
    hide Expand;
    var other := frame[3 := x];
    if k == 0 {
      assert HeaderState(other) == HeaderState(frame);
    } else {
      PrefixIgnoresByte3(frame, x, k - 1);
      assert Nibble(other, k - 1) == Nibble(frame, k - 1);
    }
  }

  /** Byte 3 of a frame header is never read: any value there decodes to the same samples. */
  lemma Byte3Unread(frame: seq<Byte>, x: Byte)
    requires |frame| >= 4 && frame[2] <= 88
    ensures FrameSamples(frame[3 := x]) == FrameSamples(frame)
  {
    hide Expand, StateAt, SamplesUpTo;
    PrefixIgnoresByte3(frame, x, 2 * (|frame| - 4));
  }

  /** Payload byte `pos` holds nibbles n and n + 1 of the frame: decoding it
      takes the state and the samples two nibbles further. */
  lemma DecodeByteStep(frame: seq<Byte>, pos: int, n: int)
    requires |frame| >= 4 && frame[2] <= 88 && 4 <= pos < |frame| && n == 2 * (pos - 4)
    ensures StateAt(frame, n + 1) == Expand(StateAt(frame, n), frame[pos] % 0x10)
    ensures StateAt(frame, n + 2) == Expand(StateAt(frame, n + 1), frame[pos] / 0x10)
    ensures SamplesUpTo(frame, n + 1) == SamplesUpTo(frame, n) + [StateAt(frame, n + 1).predictor]
    ensures SamplesUpTo(frame, n + 2) == SamplesUpTo(frame, n + 1) + [StateAt(frame, n + 2).predictor]
  {
    assert Nibble(frame, n) == frame[pos] % 0x10;
    assert Nibble(frame, n + 1) == frame[pos] / 0x10;
  }

  lemma DecodeStart(frame: seq<Byte>)
    requires |frame| >= 4 && frame[2] <= 88
    ensures StateAt(frame, 0) == HeaderState(frame)
    ensures SamplesUpTo(frame, 0) == [HeaderState(frame).predictor]
  {
  }

  /** `adpcm_rib_decode_frame`: decode one frame with a fresh channel status and
      append its samples to `out`. The frame must hold its 4-byte header, and the
      step index in byte 2 must index the step table. */
  method DecodeFrame(input: seq<Byte>, out: seq<Int16>) returns (out': seq<Int16>)
    requires |input| >= 4 && input[2] <= 88
    ensures out' == out + FrameSamples(input)
  {
    hide Expand, StateAt, SamplesUpTo;
    DecodeStart(input);
    var status := new ChannelStatus();
    status.predictor := HeaderPredictor(input[0], input[1]);
    status.stepIndex := Int8Of(input[2]);
    HeaderPredictorIsSignedLittleEndian(input[0], input[1]);

    out' := out + [status.predictor];

    var pos := 4;
    ghost var n := 0;
    while pos < |input|
      invariant 4 <= pos <= |input| && n == 2 * (pos - 4)
      invariant status.State() == StateAt(input, n)
      invariant out' == out + SamplesUpTo(input, n)
    {
      DecodeByteStep(input, pos, n);
      var low := ExpandNibble(status, input[pos] % 0x10);
      out' := out' + [low];
      var high := ExpandNibble(status, input[pos] / 0x10);
      out' := out' + [high];
      pos := pos + 1;
      n := n + 2;
    }
  }
}
