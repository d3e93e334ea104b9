/**
 The linear stereo-to-mono resampler of audio/hc15xx_resampler.c.

 `Run` is the unbounded-integer reference; `ResamplerState.Process` is the code
 with its three paths and its fixed-width arithmetic.
 */
module Resampler {
  import opened CArithmetic

  datatype State = State(
    inputRate: int, outputRate: int, phase: int, previous: int, havePrevious: bool)
  {
    /** What every call keeps, also for a struct whose rates were never set. */
    predicate Valid() {
      && 0 <= inputRate < U32 && 0 <= outputRate < U32
      && 0 <= phase && (phase == 0 || phase < inputRate)
      && IsSample(previous)
      && (!havePrevious ==> phase == 0)
    }

    /** Valid with both rates set: the states in which samples are converted. */
    predicate Running() {
      Valid() && inputRate > 0 && outputRate > 0
    }
  }

  predicate IsSample(x: int) {
    -0x8000 <= x < 0x8000
  }

  predicate AreSamples(xs: seq<int>) {
    forall i | 0 <= i < |xs| :: IsSample(xs[i])
  }

  function Fresh(inputRate: int, outputRate: int): State {
    State(inputRate, outputRate, 0, 0, false)
  }

  // ----- the reference semantics, one input sample at a time -----

  /** Mono samples of `frames` interleaved stereo frames. */
  function Downmix(stereo: seq<int>, frames: nat): (xs: seq<int>)
    requires 2 * frames <= |stereo| && AreSamples(stereo)
    ensures |xs| == frames && AreSamples(xs)
  {
    seq(frames, i requires 0 <= i < frames => TruncDiv(stereo[2 * i] + stereo[2 * i + 1], 2))
  }

  /** `m` is half of `l + r`, rounded toward zero. */
  predicate IsAverage(m: int, l: int, r: int) {
    && 2 * Abs(m) <= Abs(l + r) < 2 * Abs(m) + 2
    && (l + r >= 0 ==> m >= 0) && (l + r <= 0 ==> m <= 0)
  }

  function Abs(x: int): nat {
    if x < 0 then -x else x
  }

  /** Each mono sample is the average of its own frame. */
  lemma {:induction false} DownmixAverages(stereo: seq<int>, frames: nat, i: nat)
    requires 2 * frames <= |stereo| && AreSamples(stereo) && i < frames
    ensures IsAverage(Downmix(stereo, frames)[i], stereo[2 * i], stereo[2 * i + 1])
  {
  }

  /** An average is determined by its frame. */
  lemma {:induction false} AverageIsUnique(m: int, n: int, l: int, r: int)
    requires IsAverage(m, l, r) && IsAverage(n, l, r)
    ensures m == n
  {
  }

  /** Number of output instants in the input interval that the next sample closes. */
  function Outputs(s: State): (n: nat)
    requires s.Running()
  {
    (s.phase + s.outputRate) / s.inputRate
  }

  /** Distance of output `k` of the interval from the previous sample, in units of 1/outputRate. */
  function Fraction(s: State, k: int): int {
    s.inputRate - s.phase + k * s.inputRate
  }

  function Blend(s: State, x: int, fraction: int): int
    requires s.outputRate > 0
  {
    s.previous + TruncDiv((x - s.previous) * fraction, s.outputRate)
  }

  function Emit(s: State, x: int): seq<int>
    requires s.Running()
  {
    if !s.havePrevious then [x]
    else seq(Outputs(s), k => Blend(s, x, Fraction(s, k)))
  }

  function Next(s: State, x: int): (t: State)
    requires s.Running() && IsSample(x)
    ensures t.Running() && t.havePrevious && t.previous == x
    ensures t.inputRate == s.inputRate && t.outputRate == s.outputRate
  {
    if !s.havePrevious then s.(previous := x, havePrevious := true)
    else s.(phase := (s.phase + s.outputRate) % s.inputRate, previous := x)
  }

  datatype Result = Result(out: seq<int>, state: State, consumed: nat)

  /** Consumes samples until one would produce more than the remaining room. */
  function Run(s: State, xs: seq<int>, room: nat): (r: Result)
    requires s.Running() && AreSamples(xs)
    ensures |r.out| <= room && r.consumed <= |xs|
    ensures r.state.Running()
    ensures r.state.inputRate == s.inputRate && r.state.outputRate == s.outputRate
    decreases |xs|
  {
    if xs == [] || |Emit(s, xs[0])| > room then Result([], s, 0)
    else
      var r := Run(Next(s, xs[0]), xs[1..], room - |Emit(s, xs[0])|);
      Result(Emit(s, xs[0]) + r.out, r.state, r.consumed + 1)
  }

  /** The result of one call of `hc15xx_resampler_process_stereo_s16`. */
  function Call(s: State, xs: seq<int>, capacity: nat): (r: Result)
    requires s.Valid() && AreSamples(xs)
    ensures |r.out| <= capacity && r.consumed <= |xs|
    ensures r.state.Valid() && (s.Running() ==> r.state.Running())
    ensures r.state.inputRate == s.inputRate && r.state.outputRate == s.outputRate
  {
    if !s.Running() || capacity == 0 then Result([], s, 0) else Run(s, xs, capacity)
  }

  /** `Run` without a capacity. */
  function RunAll(s: State, xs: seq<int>): (r: (seq<int>, State))
    requires s.Running() && AreSamples(xs)
    ensures r.1.Running()
    ensures r.1.inputRate == s.inputRate && r.1.outputRate == s.outputRate
    decreases |xs|
  {
    if xs == [] then ([], s)
    else
      var r := RunAll(Next(s, xs[0]), xs[1..]);
      (Emit(s, xs[0]) + r.0, r.1)
  }

  // ----- arithmetic of one step -----

  /** Every output instant of an interval lies in it: `0 < fraction <= outputRate`. */
  lemma FractionBounds(s: State, k: int)
    requires s.Running() && 0 <= k < Outputs(s)
    ensures 0 < Fraction(s, k) <= s.outputRate
  {
    var n := Outputs(s);
    assert n * s.inputRate <= s.phase + s.outputRate;
    assert (k + 1) * s.inputRate <= n * s.inputRate by { MulMonotone(k + 1, n, s.inputRate); }
    assert k * s.inputRate >= 0;
    assert Fraction(s, k) == (k + 1) * s.inputRate - s.phase;
  }

  lemma MulMonotone(a: int, b: int, c: int)
    requires a <= b && c >= 0
    ensures a * c <= b * c
  {
  }

  /** `m * f / d` stays below `m` when `f <= d`. */
  lemma ScaleDown(m: nat, f: nat, d: nat)
    requires f <= d && d > 0
    ensures 0 <= m * f / d <= m && 0 <= m * f <= m * d
  {
    MulMonotone(f, d, m);
    var q := m * f / d;
    assert q * d <= m * f <= m * d;
    if q > m {
      assert q * d >= (m + 1) * d by { MulMonotone(m + 1, q, d); }
      assert false;
    }
  }

  /** The truncated product in the form the 16-bit path computes it: magnitude first, sign last. */
  lemma BlendByMagnitude(s: State, x: int, fraction: int)
    requires s.outputRate > 0 && fraction >= 0
    ensures var magnitude := if x < s.previous then s.previous - x else x - s.previous;
            var q := magnitude * fraction / s.outputRate;
            Blend(s, x, fraction) == s.previous + (if x < s.previous then -q else q)
  {
    var delta := x - s.previous;
    if delta < 0 {
      assert -(delta * fraction) == (-delta) * fraction;
      assert delta * fraction <= 0;
    } else {
      assert delta * fraction >= 0;
    }
  }

  /** An interpolated sample lies between its neighbours, so the `int16_t` cast loses nothing. */
  lemma BlendBetween(s: State, x: int, fraction: int)
    requires 0 <= fraction <= s.outputRate && s.outputRate > 0
    ensures s.previous <= Blend(s, x, fraction) <= x || x <= Blend(s, x, fraction) <= s.previous
  {
    BlendByMagnitude(s, x, fraction);
    var magnitude := if x < s.previous then s.previous - x else x - s.previous;
    ScaleDown(magnitude, fraction, s.outputRate);
  }

  /** At the right end of the interval the sample itself comes out. */
  lemma BlendAtEnd(s: State, x: int)
    requires s.outputRate > 0
    ensures Blend(s, x, s.outputRate) == x
  {
    BlendByMagnitude(s, x, s.outputRate);
    var magnitude := if x < s.previous then s.previous - x else x - s.previous;
    DivModUnique(magnitude * s.outputRate, s.outputRate, magnitude, 0);
  }

  lemma EmitsSamples(s: State, x: int)
    requires s.Running() && IsSample(x)
    ensures AreSamples(Emit(s, x))
  {
    forall k | 0 <= k < |Emit(s, x)|
      ensures IsSample(Emit(s, x)[k])
    {
      if s.havePrevious {
        FractionBounds(s, k);
        BlendBetween(s, x, Fraction(s, k));
      }
    }
  }

  /** Equal rates and phase zero: each input sample is its own output. */
  lemma UnityStep(s: State, x: int)
    requires s.Running() && s.inputRate == s.outputRate && s.phase == 0 && IsSample(x)
    ensures Emit(s, x) == [x] && Next(s, x) == s.(previous := x, havePrevious := true)
  {
    if s.havePrevious {
      DivModUnique(s.outputRate, s.inputRate, 1, 0);
      BlendAtEnd(s, x);
      assert Fraction(s, 0) == s.outputRate;
    }
  }

  lemma {:induction false} UnityRun(s: State, xs: seq<int>, room: nat)
    requires s.Running() && s.inputRate == s.outputRate && s.phase == 0 && AreSamples(xs)
    ensures var n := if |xs| < room then |xs| else room;
            Run(s, xs, room) ==
            Result(xs[..n], if n == 0 then s else s.(previous := xs[n - 1], havePrevious := true), n)
    decreases |xs|
  {
    hide Emit, Next;
    if xs != [] {
      UnityStep(s, xs[0]);
      if room > 0 {
        UnityRun(Next(s, xs[0]), xs[1..], room - 1);
        var n := if |xs| < room then |xs| else room;
        assert xs[..n] == [xs[0]] + xs[1..][..n - 1];
      }
    }
  }

  /** The effect of one sample that has a predecessor. */
  lemma StepOf(s: State, x: int)
    requires s.Running() && s.havePrevious && IsSample(x)
    ensures |Emit(s, x)| == Outputs(s) == (s.phase + s.outputRate) / s.inputRate
    ensures Next(s, x) == s.(phase := (s.phase + s.outputRate) % s.inputRate, previous := x)
    ensures forall k | 0 <= k < |Emit(s, x)| :: Emit(s, x)[k] == Blend(s, x, Fraction(s, k))
  {
  }

  /** One sample turns `outputRate` units into outputs worth `inputRate` each; the rest is phase. */
  lemma StepConserves(s: State, x: int)
    requires s.Running() && IsSample(x)
    ensures s.havePrevious ==>
              s.phase + s.outputRate == s.inputRate * |Emit(s, x)| + Next(s, x).phase
    ensures !s.havePrevious ==> |Emit(s, x)| == 1 && Next(s, x).phase == s.phase
  {
  }

  // ----- chunks and capacities -----

  /** A call consumes everything exactly when the unlimited output fits. */
  lemma {:induction false} ConsumesAllIffFits(s: State, xs: seq<int>, room: nat)
    requires s.Running() && AreSamples(xs)
    ensures Run(s, xs, room).consumed == |xs| <==> |RunAll(s, xs).0| <= room
    ensures Run(s, xs, room).consumed == |xs| ==>
      Run(s, xs, room).out == RunAll(s, xs).0 && Run(s, xs, room).state == RunAll(s, xs).1
    decreases |xs|
  {
    if xs != [] {
      var e := Emit(s, xs[0]);
      if |e| <= room {
        ConsumesAllIffFits(Next(s, xs[0]), xs[1..], room - |e|);
      }
    }
  }

  lemma {:induction false} RunAllConcat(s: State, xs: seq<int>, ys: seq<int>)
    requires s.Running() && AreSamples(xs) && AreSamples(ys)
    ensures AreSamples(xs + ys)
    ensures var a := RunAll(s, xs); var b := RunAll(a.1, ys);
            RunAll(s, xs + ys) == (a.0 + b.0, b.1)
    decreases |xs|
  {
    hide Emit, Next;
    if xs == [] {
      assert xs + ys == ys;
      assert RunAll(s, xs) == ([], s);
      assert [] + RunAll(s, ys).0 == RunAll(s, ys).0;
    } else {
      var t := Next(s, xs[0]);
      RunAllConcat(t, xs[1..], ys);
      assert (xs + ys)[1..] == xs[1..] + ys;
      var a := RunAll(t, xs[1..]);
      assert Emit(s, xs[0]) + (a.0 + RunAll(a.1, ys).0) == Emit(s, xs[0]) + a.0 + RunAll(a.1, ys).0;
    }
  }

  datatype Chunk = Chunk(samples: seq<int>, capacity: nat)

  predicate AreChunks(cs: seq<Chunk>) {
    forall i | 0 <= i < |cs| :: AreSamples(cs[i].samples)
  }

  function Joined(cs: seq<Chunk>): (xs: seq<int>)
    requires AreChunks(cs)
    ensures AreSamples(xs)
  {
    if cs == [] then [] else cs[0].samples + Joined(cs[1..])
  }

  /** The calls made one chunk after the other: concatenated output, last state. */
  function Calls(s: State, cs: seq<Chunk>): (r: (seq<int>, State))
    requires s.Running() && AreChunks(cs)
    ensures r.1.Running()
    decreases |cs|
  {
    if cs == [] then ([], s)
    else
      var a := Call(s, cs[0].samples, cs[0].capacity);
      var b := Calls(a.state, cs[1..]);
      (a.out + b.0, b.1)
  }

  /** No call of the run is cut short by its capacity. */
  predicate NoneBinds(s: State, cs: seq<Chunk>)
    requires s.Running() && AreChunks(cs)
    decreases |cs|
  {
    cs == [] ||
    (var a := Call(s, cs[0].samples, cs[0].capacity);
     a.consumed == |cs[0].samples| && NoneBinds(a.state, cs[1..]))
  }

  /** However a stream is cut, calls that are not cut short act as one unlimited call. */
  lemma {:induction false} ChunkingIsInvisible(s: State, cs: seq<Chunk>)
    requires s.Running() && AreChunks(cs) && NoneBinds(s, cs)
    ensures Calls(s, cs) == RunAll(s, Joined(cs))
    decreases |cs|
  {
    if cs != [] {
      var c := cs[0];
      var a := Call(s, c.samples, c.capacity);
      ConsumesAllIffFits(s, c.samples, c.capacity);
      assert (a.out, a.state) == RunAll(s, c.samples);
      ChunkingIsInvisible(a.state, cs[1..]);
      RunAllConcat(s, c.samples, Joined(cs[1..]));
    }
  }

  /** When a call keeps up with its chunk, in terms of the arguments alone. */
  lemma CallKeepsUpIff(s: State, xs: seq<int>, capacity: nat)
    requires s.Running() && AreSamples(xs)
    ensures Call(s, xs, capacity).consumed == |xs| <==>
            xs == [] || (capacity > 0 && |RunAll(s, xs).0| <= capacity)
  {
    if capacity > 0 {
      ConsumesAllIffFits(s, xs, capacity);
    }
  }

  // ----- the closed form from a fresh state -----

  /**
   The mono input as a continuous, piecewise linear signal, sampled at time
   `j * inputRate / outputRate` and truncated toward the sample on its left.
   */
  function Interpolate(xs: seq<int>, inputRate: int, outputRate: int, j: nat): int
    requires inputRate > 0 && outputRate > 0 && xs != []
    requires j * inputRate <= (|xs| - 1) * outputRate
  {
    var n := j * inputRate / outputRate;
    var f := j * inputRate % outputRate;
    IndexBound(j * inputRate, outputRate, |xs| - 1);
    if f == 0 then xs[n] else xs[n] + TruncDiv((xs[n + 1] - xs[n]) * f, outputRate)
  }

  lemma IndexBound(t: nat, d: nat, n: nat)
    requires d > 0 && t <= n * d
    ensures 0 <= t / d <= n && (t % d != 0 ==> t / d < n)
  {
    var q := t / d;
    assert t == q * d + t % d;
    if q > n {
      MulMonotone(n + 1, q, d);
      assert false;
    } else if q == n && t % d != 0 {
      assert false;
    }
  }

  /** Output `k` of the interval after sample `n - 1`, as a point of the signal. */
  lemma StepInterpolates(s: State, xs: seq<int>, q: nat, k: nat)
    requires s.Running() && s.havePrevious && |xs| >= 2
    requires s.previous == xs[|xs| - 2]
    requires (|xs| - 2) * s.outputRate == q * s.inputRate + s.phase
    requires k < Outputs(s)
    ensures var j := 1 + q + k;
            j * s.inputRate <= (|xs| - 1) * s.outputRate &&
            Blend(s, xs[|xs| - 1], Fraction(s, k)) == Interpolate(xs, s.inputRate, s.outputRate, j)
  {
    var n := |xs| - 2;
    var j := 1 + q + k;
    var f := Fraction(s, k);
    FractionBounds(s, k);
    assert j * s.inputRate == q * s.inputRate + (k + 1) * s.inputRate;
    assert j * s.inputRate == n * s.outputRate + f;
    assert (n + 1) * s.outputRate == n * s.outputRate + s.outputRate;
    if f == s.outputRate {
      DivModUnique(j * s.inputRate, s.outputRate, n + 1, 0);
      BlendAtEnd(s, xs[n + 1]);
    } else {
      DivModUnique(j * s.inputRate, s.outputRate, n, f);
    }
  }

  /** Points of the signal do not move when more input arrives. */
  lemma InterpolatePrefix(xs: seq<int>, x: int, inputRate: int, outputRate: int, j: nat)
    requires inputRate > 0 && outputRate > 0 && xs != []
    requires j * inputRate <= (|xs| - 1) * outputRate
    ensures j * inputRate <= (|xs + [x]| - 1) * outputRate
    ensures Interpolate(xs + [x], inputRate, outputRate, j) == Interpolate(xs, inputRate, outputRate, j)
  {
    MulMonotone(|xs| - 1, |xs|, outputRate);
    IndexBound(j * inputRate, outputRate, |xs| - 1);
  }

  /** Position and phase after one more input sample. */
  lemma PositionStep(n: nat, inputRate: nat, outputRate: nat)
    requires inputRate > 0
    ensures var t := n * outputRate;
            (n + 1) * outputRate / inputRate == t / inputRate + (t % inputRate + outputRate) / inputRate
    ensures (n + 1) * outputRate % inputRate == (n * outputRate % inputRate + outputRate) % inputRate
  {
    var t := n * outputRate;
    var a := t % inputRate + outputRate;
    assert (n + 1) * outputRate == t + outputRate;
    assert t == (t / inputRate) * inputRate + t % inputRate;
    assert a == (a / inputRate) * inputRate + a % inputRate;
    assert (t / inputRate + a / inputRate) * inputRate ==
           (t / inputRate) * inputRate + (a / inputRate) * inputRate;
    DivModUnique(t + outputRate, inputRate, t / inputRate + a / inputRate, a % inputRate);
  }

  /** Sample `j` of `out` is the signal at instant `j`, for every `j`. */
  ghost predicate IsSignal(out: seq<int>, xs: seq<int>, inputRate: int, outputRate: int) {
    && inputRate > 0 && outputRate > 0 && xs != []
    && forall j: nat | j < |out| ::
         j * inputRate <= (|xs| - 1) * outputRate && out[j] == Interpolate(xs, inputRate, outputRate, j)
  }

  /**
   `n >= 1` inputs from a fresh state give `1 + floor((n-1)*outputRate/inputRate)`
   outputs, and output `j` is the signal at time `j*inputRate/outputRate`.
   */
  ghost predicate ClosedForm(inputRate: int, outputRate: int, xs: seq<int>)
    requires 0 < inputRate < U32 && 0 < outputRate < U32
    requires AreSamples(xs) && xs != []
  {
    var r := RunAll(Fresh(inputRate, outputRate), xs);
    && |r.0| == 1 + (|xs| - 1) * outputRate / inputRate
    && r.1 == State(inputRate, outputRate, (|xs| - 1) * outputRate % inputRate, xs[|xs| - 1], true)
    && IsSignal(r.0, xs, inputRate, outputRate)
  }

  /** The closed form holds of every fresh run. */
  lemma {:induction false} FreshRunIsSignal(inputRate: int, outputRate: int, xs: seq<int>)
    requires 0 < inputRate < U32 && 0 < outputRate < U32
    requires AreSamples(xs) && xs != []
    ensures ClosedForm(inputRate, outputRate, xs)
    decreases |xs|, 0
  {
    hide ClosedForm;
    if |xs| == 1 {
      FreshRunFirst(inputRate, outputRate, xs[0]);
      assert xs == [xs[0]];
    } else {
      FreshRunStep(inputRate, outputRate, xs[..|xs| - 1], xs[|xs| - 1]);
      assert xs == xs[..|xs| - 1] + [xs[|xs| - 1]];
    }
  }

  lemma FreshRunFirst(inputRate: int, outputRate: int, x: int)
    requires 0 < inputRate < U32 && 0 < outputRate < U32 && IsSample(x)
    ensures ClosedForm(inputRate, outputRate, [x])
  {
    var s := Fresh(inputRate, outputRate);
    SingleRun(s, x);
    assert RunAll(s, [x]) == ([x], State(inputRate, outputRate, 0, x, true));
    assert 0 * inputRate == 0 == (|[x]| - 1) * outputRate;
  }

  lemma {:induction false} FreshRunStep(inputRate: int, outputRate: int, ys: seq<int>, x: int)
    requires 0 < inputRate < U32 && 0 < outputRate < U32
    requires AreSamples(ys) && ys != [] && IsSample(x)
    ensures AreSamples(ys + [x]) && ClosedForm(inputRate, outputRate, ys + [x])
    decreases |ys|, 1
  {
    hide Emit, Next, RunAll, IsSignal;
    FreshRunIsSignal(inputRate, outputRate, ys);
    var s := Fresh(inputRate, outputRate);
    var a := RunAll(s, ys);
    RunAllConcat(s, ys, [x]);
    SingleRun(a.1, x);
    StepOf(a.1, x);
    PositionStep(|ys| - 1, inputRate, outputRate);
    SignalExtends(a.1, a.0, ys, x, (|ys| - 1) * outputRate / inputRate);
  }

  /** One more input sample extends the sampled signal by the outputs it closes. */
  lemma SignalExtends(s: State, out: seq<int>, ys: seq<int>, x: int, q: nat)
    requires s.Running() && s.havePrevious && IsSample(x)
    requires IsSignal(out, ys, s.inputRate, s.outputRate)
    requires s.previous == ys[|ys| - 1]
    requires (|ys| - 1) * s.outputRate == q * s.inputRate + s.phase && |out| == 1 + q
    ensures IsSignal(out + Emit(s, x), ys + [x], s.inputRate, s.outputRate)
  {
    hide Emit, Interpolate, Outputs, Blend, Fraction;
    var xs := ys + [x];
    var all := out + Emit(s, x);
    StepOf(s, x);
    forall j: nat | j < |all|
      ensures j * s.inputRate <= (|xs| - 1) * s.outputRate &&
              all[j] == Interpolate(xs, s.inputRate, s.outputRate, j)
    {
      if j < |out| {
        InterpolatePrefix(ys, x, s.inputRate, s.outputRate, j);
      } else {
        StepInterpolates(s, xs, q, j - |out|);
      }
    }
  }

  lemma SingleRun(s: State, x: int)
    requires s.Running() && IsSample(x)
    ensures RunAll(s, [x]) == (Emit(s, x), Next(s, x))
  {
    hide Emit, Next;
    assert RunAll(Next(s, x), [x][1..]) == ([], Next(s, x));
    assert Emit(s, x) + [] == Emit(s, x);
  }

  /** The same for one call: it keeps up with `n` inputs exactly when the outputs fit. */
  lemma FreshCallIsSignal(inputRate: int, outputRate: int, xs: seq<int>, capacity: nat)
    requires 0 < inputRate < U32 && 0 < outputRate < U32
    requires AreSamples(xs) && xs != []
    ensures var r := Call(Fresh(inputRate, outputRate), xs, capacity);
            var n := 1 + (|xs| - 1) * outputRate / inputRate;
            && (r.consumed == |xs| <==> n <= capacity)
            && (r.consumed == |xs| ==> |r.out| == n && IsSignal(r.out, xs, inputRate, outputRate))
  {
    hide Run, RunAll;
    FreshRunIsSignal(inputRate, outputRate, xs);
    ConsumesAllIffFits(Fresh(inputRate, outputRate), xs, capacity);
    ScaledNat(|xs| - 1, outputRate, inputRate);
  }

  lemma ScaledNat(a: nat, b: nat, d: int)
    requires d > 0
    ensures a * b / d >= 0
  {
  }

  // ----- conservation across chunks and rate changes -----

  datatype Event = Process(chunk: Chunk) | SetOutputRate(rate: int)

  predicate AreEvents(es: seq<Event>) {
    forall i | 0 <= i < |es| ::
      if es[i].Process? then AreSamples(es[i].chunk.samples) else 0 <= es[i].rate < U32
  }

  /** `hc15xx_resampler_set_output_rate` refuses a zero rate. */
  function Retuned(s: State, rate: int): State {
    if rate == 0 then s else s.(outputRate := rate)
  }

  datatype Tally = Tally(state: State, outputs: nat, credit: nat)

  /** `credit` sums the output rate in force over the consumed frames that had a predecessor. */
  function Totals(t: Tally, es: seq<Event>): (r: Tally)
    requires t.state.Running() && AreEvents(es)
    ensures r.state.Running() && r.state.inputRate == t.state.inputRate
    decreases |es|
  {
    if es == [] then t
    else match es[0]
      case SetOutputRate(rate) => Totals(t.(state := Retuned(t.state, rate)), es[1..])
      case Process(c) =>
        var r := Call(t.state, c.samples, c.capacity);
        var first := if !t.state.havePrevious && r.consumed > 0 then 1 else 0;
        CreditNat(r.consumed - first, t.state.outputRate);
        Totals(Tally(r.state, t.outputs + |r.out| - first,
                     t.credit + (r.consumed - first) * t.state.outputRate), es[1..])
  }

  lemma CreditNat(n: int, rate: int)
    ensures n >= 0 && rate >= 0 ==> n * rate >= 0
  {
  }

  lemma AddConserved(i: int, o: int, frames: int, outputs: int, e: int, p0: int, p1: int, p2: int)
    requires p0 + o == i * e + p1 && frames * o == i * outputs + p2 - p1
    ensures (frames + 1) * o == i * (outputs + e) + p2 - p0
  {
  }

  /** One call turns output-rate credit into input-rate-sized outputs, the rest is phase. */
  lemma {:induction false} RunConserves(s: State, xs: seq<int>, room: nat)
    requires s.Running() && AreSamples(xs)
    ensures var r := Run(s, xs, room);
            var first := if !s.havePrevious && r.consumed > 0 then 1 else 0;
            && |r.out| >= first
            && (r.consumed - first) * s.outputRate ==
               s.inputRate * (|r.out| - first) + r.state.phase - s.phase
    decreases |xs|
  {
    hide Emit, Next;
    if xs != [] && |Emit(s, xs[0])| <= room {
      var t := Next(s, xs[0]);
      var e := |Emit(s, xs[0])|;
      StepConserves(s, xs[0]);
      RunConserves(t, xs[1..], room - e);
      var r := Run(t, xs[1..], room - e);
      if s.havePrevious {
        AddConserved(s.inputRate, s.outputRate, r.consumed, |r.out|, e, s.phase, t.phase, r.state.phase);
      }
    }
  }

  lemma CallConserves(s: State, xs: seq<int>, capacity: nat)
    requires s.Running() && AreSamples(xs)
    ensures var r := Call(s, xs, capacity);
            var first := if !s.havePrevious && r.consumed > 0 then 1 else 0;
            && |r.out| >= first
            && (r.consumed - first) * s.outputRate ==
               s.inputRate * (|r.out| - first) + r.state.phase - s.phase
  {
    hide Run;
    if capacity > 0 {
      RunConserves(s, xs, capacity);
    }
  }

  /** The outputs counted so far and the phase account for every unit of credit. */
  lemma {:induction false} RatesAreConserved(t: Tally, es: seq<Event>)
    requires t.state.Running() && AreEvents(es)
    ensures var r := Totals(t, es);
            && r.credit - t.credit ==
               t.state.inputRate * (r.outputs - t.outputs) + r.state.phase - t.state.phase
            && 0 <= r.state.phase < r.state.inputRate
    decreases |es|
  {
    hide Run, Call;
    if es != [] {
      match es[0]
      case SetOutputRate(rate) =>
        RatesAreConserved(t.(state := Retuned(t.state, rate)), es[1..]);
      case Process(c) =>
        var r := Call(t.state, c.samples, c.capacity);
        var first := if !t.state.havePrevious && r.consumed > 0 then 1 else 0;
        CallConserves(t.state, c.samples, c.capacity);
        CreditNat(r.consumed - first, t.state.outputRate);
        var u := Tally(r.state, t.outputs + |r.out| - first,
                       t.credit + (r.consumed - first) * t.state.outputRate);
        RatesAreConserved(u, es[1..]);
        var v := Totals(u, es[1..]);
        Distribute(t.state.inputRate, v.outputs - u.outputs, u.outputs - t.outputs);
    }
  }

  lemma Distribute(a: int, b: int, c: int)
    ensures a * (b + c) == a * b + a * c
  {
  }
}
