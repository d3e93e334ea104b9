/** The code of audio/hc15xx_resampler.c with its C integer types, proved against `Resampler.Call`. */
module ResamplerCode {
  import opened CArithmetic
  import opened Resampler

  /** `(int32_t)left + (int32_t)right` halved, as both loops compute it. */
  function MonoSample(left: int, right: int): int {
    TruncDiv(Signed32(left + right), 2)
  }

  lemma DownmixAt(stereo: seq<int>, frames: nat, i: nat)
    requires AreSamples(stereo) && 2 * frames <= |stereo| && i < frames
    ensures IsSample(MonoSample(stereo[2 * i], stereo[2 * i + 1]))
    ensures Downmix(stereo, frames)[i] == MonoSample(stereo[2 * i], stereo[2 * i + 1])
  {
  }

  /** One output of the 16-bit-rate path: every intermediate is a 32-bit value. */
  function NarrowSample(s: State, current: int, k: int): int
    requires s.outputRate > 0
  {
    var fraction := Wrap32(Wrap32(s.inputRate - s.phase) + Wrap32(k * s.inputRate));
    var delta := Signed32(current - s.previous);
    var magnitude := Wrap32(if delta < 0 then -delta else delta);
    var quotient := Signed32(Wrap32(magnitude * fraction) / s.outputRate);
    var interpolation := if delta < 0 then Signed32(-quotient) else quotient;
    Signed16(Signed32(s.previous + interpolation))
  }

  /** One output of the wide path: 64-bit intermediates. */
  function WideSample(s: State, current: int, k: int): int
    requires s.outputRate > 0
  {
    var fraction := Wrap64(Wrap64(s.inputRate - s.phase) + Wrap64(k * s.inputRate));
    var delta := Signed64(current - s.previous);
    Signed16(Signed64(s.previous + TruncDiv(Signed64(delta * Signed64(fraction)), s.outputRate)))
  }

  function NarrowOutputs(s: State): int
    requires s.inputRate > 0
  {
    var advanced := Wrap32(s.phase + s.outputRate);
    if s.outputRate <= s.inputRate then
      if advanced >= s.inputRate then 1 else 0
    else
      advanced / s.inputRate
  }

  /** With 16-bit rates no 32-bit intermediate overflows and the casts lose nothing. */
  lemma NarrowSampleExact(s: State, x: int, k: int)
    requires s.Running() && s.inputRate <= U16_MAX && s.outputRate <= U16_MAX
    requires IsSample(x) && 0 <= k < Outputs(s)
    ensures NarrowSample(s, x, k) == Blend(s, x, Fraction(s, k))
  {
    hide Blend;
    var fraction := Fraction(s, k);
    FractionBounds(s, k);
    var magnitude := if x < s.previous then s.previous - x else x - s.previous;
    BlendByMagnitude(s, x, fraction);
    BlendBetween(s, x, fraction);
    ScaleDown(magnitude, fraction, s.outputRate);
    assert magnitude * s.outputRate < U32 by { ProductBound(magnitude, s.outputRate); }
    assert 0 <= k * s.inputRate < U32 by { StepBound(s, k); }
  }

  lemma ProductBound(a: int, b: int)
    requires 0 <= a <= U16_MAX && 0 <= b <= U16_MAX
    ensures 0 <= a * b < U32
  {
    MulMonotone(a, U16_MAX, b);
  }

  lemma StepBound(s: State, k: int)
    requires s.Running() && 0 <= k < Outputs(s)
    ensures 0 <= k * s.inputRate <= s.phase + s.outputRate
  {
    MulMonotone(k, Outputs(s), s.inputRate);
    MulMonotone(0, k, s.inputRate);
  }

  /** The 64-bit path is exact for every rate pair. */
  lemma WideSampleExact(s: State, x: int, k: int)
    requires s.Running() && IsSample(x) && 0 <= k < Outputs(s)
    ensures WideSample(s, x, k) == Blend(s, x, Fraction(s, k))
  {
    var fraction := Fraction(s, k);
    FractionBounds(s, k);
    BlendBetween(s, x, fraction);
    StepBound(s, k);
    var delta := x - s.previous;
    WideProductBound(delta, fraction);
  }

  lemma WideProductBound(delta: int, f: int)
    requires -U16_MAX <= delta <= U16_MAX && 0 <= f < U32
    ensures -0x8000_0000_0000_0000 <= delta * f < 0x8000_0000_0000_0000
  {
    MulMonotone(delta, U16_MAX, f);
    MulMonotone(-U16_MAX, delta, f);
  }

  lemma NarrowOutputsExact(s: State)
    requires s.Running() && s.inputRate <= U16_MAX && s.outputRate <= U16_MAX
    ensures NarrowOutputs(s) == Outputs(s)
  {
    if s.outputRate <= s.inputRate {
      var advanced := s.phase + s.outputRate;
      if advanced >= s.inputRate {
        DivModUnique(advanced, s.inputRate, 1, advanced - s.inputRate);
      } else {
        DivModUnique(advanced, s.inputRate, 0, advanced);
      }
    }
  }

  /** The phase both loops store: what is left of the advanced position. */
  lemma PhaseLeft(s: State)
    requires s.Running()
    ensures 0 <= s.phase + s.outputRate - Outputs(s) * s.inputRate < s.inputRate
    ensures s.phase + s.outputRate - Outputs(s) * s.inputRate == (s.phase + s.outputRate) % s.inputRate
    ensures 0 <= Outputs(s) * s.inputRate <= s.phase + s.outputRate
  {
  }

  /** What the loops have done after `input` samples: the rest of the run starts from `cur`. */
  ghost predicate Progress(s: State, xs: seq<int>, room: nat, cur: State, input: nat, out: seq<int>) {
    && s.Running() && cur.Running() && AreSamples(xs)
    && cur.inputRate == s.inputRate && cur.outputRate == s.outputRate
    && input <= |xs| && |out| <= room
    && var rest := Run(cur, xs[input..], room - |out|);
       Run(s, xs, room) == Result(out + rest.out, rest.state, input + rest.consumed)
  }

  lemma ProgressStart(s: State, xs: seq<int>, room: nat)
    requires s.Running() && AreSamples(xs)
    ensures Progress(s, xs, room, s, 0, [])
  {
    hide Run;
    assert xs[0..] == xs;
    assert [] + Run(s, xs, room).out == Run(s, xs, room).out;
  }

  lemma ProgressStep(s: State, xs: seq<int>, room: nat, cur: State, input: nat, out: seq<int>)
    requires Progress(s, xs, room, cur, input, out)
    requires input < |xs| && |Emit(cur, xs[input])| <= room - |out|
    ensures Progress(s, xs, room, Next(cur, xs[input]), input + 1, out + Emit(cur, xs[input]))
  {
    hide Emit, Next;
    var x := xs[input];
    assert xs[input..][0] == x && xs[input..][1..] == xs[input + 1..];
    var rest := Run(Next(cur, x), xs[input + 1..], room - |out| - |Emit(cur, x)|);
    assert out + (Emit(cur, x) + rest.out) == out + Emit(cur, x) + rest.out;
  }

  lemma ProgressStop(s: State, xs: seq<int>, room: nat, cur: State, input: nat, out: seq<int>)
    requires Progress(s, xs, room, cur, input, out)
    requires input == |xs| || |Emit(cur, xs[input])| > room - |out|
    ensures Run(s, xs, room) == Result(out, cur, input)
  {
    hide Emit, Next;
    assert Run(cur, xs[input..], room - |out|) == Result([], cur, 0);
    assert out + [] == out;
  }

  /** A call left state `view` and put exactly the samples of `r` at the front of the buffer. */
  ghost predicate Delivers(r: Result, view: State, produced: nat, before: seq<int>, after: seq<int>) {
    && view == r.state && produced == |r.out| <= |before|
    && after == r.out + before[produced..]
  }

  /** The inner loop of `process_wide_rates`. */
  method EmitWide(cur: State, current: int, outputs: nat, mono: array<int>, at: nat)
    requires cur.Running() && cur.havePrevious && IsSample(current)
    requires outputs == Outputs(cur) && at + outputs <= mono.Length
    modifies mono
    ensures mono[..] == old(mono[..at]) + Emit(cur, current) + old(mono[at + outputs..])
  {
    hide Emit, Next, Blend, Fraction, Outputs, WideSample;
    StepOf(cur, current);
    for index := 0 to outputs
      invariant forall k | 0 <= k < index :: mono[at + k] == Emit(cur, current)[k]
      invariant forall k | 0 <= k < at || at + index <= k < mono.Length :: mono[k] == old(mono[k])
    {
      WideSampleExact(cur, current, index);
      mono[at + index] := WideSample(cur, current, index);
    }
    forall k | 0 <= k < outputs
      ensures mono[..][at + k] == Emit(cur, current)[k]
    {
    }
    assert mono[at..at + outputs] == Emit(cur, current);
  }

  /** The inner loop of the 16-bit-rate path. */
  method EmitNarrow(cur: State, current: int, outputs: nat, mono: array<int>, at: nat)
    requires cur.Running() && cur.havePrevious && IsSample(current)
    requires cur.inputRate <= U16_MAX && cur.outputRate <= U16_MAX
    requires outputs == Outputs(cur) && at + outputs <= mono.Length
    modifies mono
    ensures mono[..] == old(mono[..at]) + Emit(cur, current) + old(mono[at + outputs..])
  {
    hide Emit, Next, Blend, Fraction, Outputs, NarrowSample;
    StepOf(cur, current);
    for index := 0 to outputs
      invariant forall k | 0 <= k < index :: mono[at + k] == Emit(cur, current)[k]
      invariant forall k | 0 <= k < at || at + index <= k < mono.Length :: mono[k] == old(mono[k])
    {
      NarrowSampleExact(cur, current, index);
      mono[at + index] := NarrowSample(cur, current, index);
    }
    forall k | 0 <= k < outputs
      ensures mono[..][at + k] == Emit(cur, current)[k]
    {
    }
    assert mono[at..at + outputs] == Emit(cur, current);
  }

  /** The body of the loop of `process_wide_rates`, for one input sample; `stop` is its `break`. */
  method StepWide(cur: State, current: int, mono: array<int>, at: nat, capacity: nat)
    returns (stop: bool, next: State, produced: nat)
    requires cur.Running() && IsSample(current) && at <= capacity <= mono.Length
    modifies mono
    ensures stop <==> |Emit(cur, current)| > capacity - at
    ensures stop ==> mono[..] == old(mono[..])
    ensures !stop ==>
      && next == Next(cur, current) && produced == at + |Emit(cur, current)|
      && mono[..] == old(mono[..at]) + Emit(cur, current) + old(mono[..])[produced..]
  {
    hide Emit, Next, Outputs;
    stop, next, produced := false, cur, at;
    if !cur.havePrevious {
      FirstStep(cur, current);
      if produced >= capacity {
        stop := true;
        return;
      }
      mono[produced] := Signed16(current);
      produced := produced + 1;
    } else {
      StepOf(cur, current);
      var advanced := Wrap64(cur.phase + cur.outputRate);
      var outputs := advanced / cur.inputRate;
      if outputs > capacity - produced {
        stop := true;
        return;
      }
      EmitWide(cur, current, outputs, mono, produced);
      produced := produced + outputs;
      PhaseLeft(cur);
      next := next.(phase := Wrap32(advanced - Wrap64(outputs * cur.inputRate)));
    }
    next := next.(previous := current, havePrevious := true);
  }

  /** The body of the 16-bit-rate loop, for one input sample; `stop` is its `break`. */
  method StepNarrow(cur: State, current: int, mono: array<int>, at: nat, capacity: nat)
    returns (stop: bool, next: State, produced: nat)
    requires cur.Running() && IsSample(current) && at <= capacity <= mono.Length
    requires cur.inputRate <= U16_MAX && cur.outputRate <= U16_MAX
    modifies mono
    ensures stop <==> |Emit(cur, current)| > capacity - at
    ensures stop ==> mono[..] == old(mono[..])
    ensures !stop ==>
      && next == Next(cur, current) && produced == at + |Emit(cur, current)|
      && mono[..] == old(mono[..at]) + Emit(cur, current) + old(mono[..])[produced..]
  {
    hide Emit, Next, Outputs;
    stop, next, produced := false, cur, at;
    if !cur.havePrevious {
      FirstStep(cur, current);
      if produced >= capacity {
        stop := true;
        return;
      }
      mono[produced] := Signed16(current);
      produced := produced + 1;
    } else {
      StepOf(cur, current);
      var advanced := Wrap32(cur.phase + cur.outputRate);
      var outputs := NarrowOutputs(cur);
      NarrowOutputsExact(cur);
      if outputs > capacity - produced {
        stop := true;
        return;
      }
      EmitNarrow(cur, current, outputs, mono, produced);
      produced := produced + outputs;
      PhaseLeft(cur);
      next := next.(phase := Wrap32(advanced - Wrap32(outputs * cur.inputRate)));
    }
    next := next.(previous := current, havePrevious := true);
  }

  class ResamplerState {
    var inputRate: int
    var outputRate: int
    var phase: int
    var previous: int
    var havePrevious: bool

    function View(): State
      reads this
    {
      State(inputRate, outputRate, phase, previous, havePrevious)
    }

    /** A zeroed struct, as the callers declare it. */
    constructor ()
      ensures View() == Fresh(0, 0)
    {
      inputRate, outputRate, phase, previous, havePrevious := 0, 0, 0, 0, false;
    }

    /** `hc15xx_resampler_init`. */
    method Init(newInputRate: int, newOutputRate: int) returns (ret: int)
      requires View().Valid() && 0 <= newInputRate < U32 && 0 <= newOutputRate < U32
      modifies this
      ensures View().Valid()
      ensures ret == 0 <==> newInputRate != 0 && newOutputRate != 0
      ensures View() == if ret == 0 then Fresh(newInputRate, newOutputRate) else old(View())
    {
      if newInputRate == 0 || newOutputRate == 0 {
        return -1;
      }
      inputRate, outputRate, phase, previous, havePrevious :=
        newInputRate, newOutputRate, 0, 0, false;
      return 0;
    }

    /** `hc15xx_resampler_set_output_rate`. */
    method SetOutputRate(rate: int) returns (ret: int)
      requires View().Valid() && 0 <= rate < U32
      modifies this
      ensures View().Valid()
      ensures ret == 0 <==> rate != 0
      ensures View() == Retuned(old(View()), rate)
      ensures rate != 0 ==> outputRate == rate && inputRate == old(inputRate) && phase == old(phase) &&
                            previous == old(previous) && havePrevious == old(havePrevious)
    {
      if rate == 0 {
        return -1;
      }
      outputRate := rate;
      return 0;
    }

    /** `process_wide_rates`. */
    method ProcessWideRates(stereo: seq<int>, frames: nat, mono: array<int>, capacity: nat)
      returns (produced: nat)
      requires View().Running() && AreSamples(stereo) && 2 * frames <= |stereo|
      requires capacity <= mono.Length
      modifies this, mono
      ensures Delivers(Run(old(View()), Downmix(stereo, frames), capacity),
                       View(), produced, old(mono[..]), mono[..])
    {
      hide Run, Emit, Next, Downmix, MonoSample;
      ghost var xs := Downmix(stereo, frames);
      ghost var start := View();
      ghost var before := mono[..];
      ghost var out := [];
      var cur := View();
      var input := 0;
      produced := 0;
      ProgressStart(start, xs, capacity);
      while input < frames
        invariant 0 <= input <= frames && produced == |out| <= capacity && View() == start
        invariant Progress(start, xs, capacity, cur, input, out)
        invariant mono[..] == out + before[produced..]
      {
        var current := MonoSample(stereo[2 * input], stereo[2 * input + 1]);
        DownmixAt(stereo, frames, input);
        var stop, next, count := StepWide(cur, current, mono, produced, capacity);
        if stop {
          break;
        }
        ProgressStep(start, xs, capacity, cur, input, out);
        out := out + Emit(cur, current);
        cur, produced := next, count;
        input := input + 1;
      }
      ProgressStop(start, xs, capacity, cur, input, out);
      phase, previous, havePrevious := cur.phase, cur.previous, cur.havePrevious;
    }

    /** `hc15xx_resampler_process_stereo_s16`. */
    method Process(stereo: seq<int>, frames: nat, mono: array<int>, capacity: nat)
      returns (produced: nat)
      requires View().Valid() && AreSamples(stereo) && 2 * frames <= |stereo|
      requires capacity <= mono.Length
      modifies this, mono
      ensures Delivers(Call(old(View()), Downmix(stereo, frames), capacity),
                       View(), produced, old(mono[..]), mono[..])
      ensures old(View().Running()) && inputRate == outputRate && old(phase) == 0 ==>
                produced == (if frames < capacity then frames else capacity) &&
                forall i | 0 <= i < produced :: IsAverage(mono[i], stereo[2 * i], stereo[2 * i + 1])
      ensures old(View().Running()) && !old(havePrevious) && produced > 0 ==> IsAverage(mono[0], stereo[0], stereo[1])
    {
      hide Run, Downmix, IsAverage;
      FirstOutputs(View(), stereo, frames, capacity);
      if inputRate == 0 || outputRate == 0 || capacity == 0 {
        return 0;
      }
      if inputRate == outputRate && phase == 0 {
        produced := ProcessUnity(stereo, frames, mono, capacity);
      } else if inputRate > U16_MAX || outputRate > U16_MAX {
        produced := ProcessWideRates(stereo, frames, mono, capacity);
      } else {
        produced := ProcessNarrowRates(stereo, frames, mono, capacity);
      }
    }

    /** The fast path for equal rates and phase zero. */
    method ProcessUnity(stereo: seq<int>, frames: nat, mono: array<int>, capacity: nat)
      returns (count: nat)
      requires View().Running() && AreSamples(stereo) && 2 * frames <= |stereo|
      requires capacity <= mono.Length && inputRate == outputRate && phase == 0
      modifies this, mono
      ensures Delivers(Run(old(View()), Downmix(stereo, frames), capacity),
                       View(), count, old(mono[..]), mono[..])
    {
      hide Run, Downmix, MonoSample;
      count := if frames < capacity then frames else capacity;
      ghost var xs := Downmix(stereo, frames);
      UnityRun(View(), xs, capacity);
      for input := 0 to count
        invariant forall k | 0 <= k < input :: mono[k] == xs[k]
        invariant forall k | input <= k < mono.Length :: mono[k] == old(mono[k])
        invariant View() == old(View())
      {
        DownmixAt(stereo, frames, input);
        mono[input] := Signed16(MonoSample(stereo[2 * input], stereo[2 * input + 1]));
      }
      assert mono[..] == xs[..count] + old(mono[..])[count..];
      if count > 0 {
        previous := mono[count - 1];
        havePrevious := true;
      }
    }

    /** The loop for rates of at most 16 bits. */
    method ProcessNarrowRates(stereo: seq<int>, frames: nat, mono: array<int>, capacity: nat)
      returns (produced: nat)
      requires View().Running() && AreSamples(stereo) && 2 * frames <= |stereo|
      requires capacity <= mono.Length && inputRate <= U16_MAX && outputRate <= U16_MAX
      modifies this, mono
      ensures Delivers(Run(old(View()), Downmix(stereo, frames), capacity),
                       View(), produced, old(mono[..]), mono[..])
    {
      hide Run, Emit, Next, Downmix, MonoSample;
      ghost var xs := Downmix(stereo, frames);
      ghost var start := View();
      ghost var before := mono[..];
      ghost var out := [];
      var cur := View();
      var input := 0;
      produced := 0;
      ProgressStart(start, xs, capacity);
      while input < frames
        invariant 0 <= input <= frames && produced == |out| <= capacity && View() == start
        invariant Progress(start, xs, capacity, cur, input, out)
        invariant mono[..] == out + before[produced..]
      {
        var current := MonoSample(stereo[2 * input], stereo[2 * input + 1]);
        DownmixAt(stereo, frames, input);
        var stop, next, count := StepNarrow(cur, current, mono, produced, capacity);
        if stop {
          break;
        }
        ProgressStep(start, xs, capacity, cur, input, out);
        out := out + Emit(cur, current);
        cur, produced := next, count;
        input := input + 1;
      }
      ProgressStop(start, xs, capacity, cur, input, out);
      phase, previous, havePrevious := cur.phase, cur.previous, cur.havePrevious;
    }

    /** `hc15xx_resampler_push_stereo_s16`: one frame with room for one output sample. */
    method Push(left: int, right: int, mono: array<int>) returns (ret: int)
      requires View().Valid() && IsSample(left) && IsSample(right) && mono.Length >= 1
      modifies this, mono
      ensures ret == -1 <==> inputRate == 0 || outputRate == 0
      ensures ret == -1 ==> View() == old(View()) && mono[..] == old(mono[..])
      ensures ret != -1 ==>
        ret >= 0 && Delivers(Call(old(View()), Downmix([left, right], 1), 1),
                             View(), ret, old(mono[..]), mono[..])
      ensures ret != -1 && !old(havePrevious) ==> ret == 1 && IsAverage(mono[0], left, right)
    {
      hide Run;
      if inputRate == 0 || outputRate == 0 {
        return -1;
      }
      PushConsumesIff(View(), Downmix([left, right], 1)[0]);
      FirstPush(View(), left, right);
      ret := Process([left, right], 1, mono, 1);
    }
  }

  /** What the first outputs say about the input frames themselves. */
  lemma {:induction false} FirstOutputs(s: State, stereo: seq<int>, frames: nat, capacity: nat)
    requires s.Valid() && AreSamples(stereo) && 2 * frames <= |stereo|
    ensures var out := Call(s, Downmix(stereo, frames), capacity).out;
            && (s.Running() && s.inputRate == s.outputRate && s.phase == 0 ==>
                  |out| == (if frames < capacity then frames else capacity) &&
                  forall i | 0 <= i < |out| :: IsAverage(out[i], stereo[2 * i], stereo[2 * i + 1]))
            && (s.Running() && !s.havePrevious && |out| > 0 ==> frames > 0 && IsAverage(out[0], stereo[0], stereo[1]))
  {
    hide Downmix, IsAverage, Emit, Next;
    var xs := Downmix(stereo, frames);
    forall i | 0 <= i < frames ensures IsAverage(xs[i], stereo[2 * i], stereo[2 * i + 1]) {
      DownmixAverages(stereo, frames, i);
    }
    if s.Running() && s.inputRate == s.outputRate && s.phase == 0 {
      UnityRun(s, xs, capacity);
    }
    if s.Running() && !s.havePrevious && frames > 0 {
      FirstStep(s, xs[0]);
    }
  }

  lemma {:induction false} FirstPush(s: State, left: int, right: int)
    requires s.Valid() && IsSample(left) && IsSample(right)
    ensures s.Running() && !s.havePrevious ==> |Call(s, Downmix([left, right], 1), 1).out| == 1
  {
    hide Downmix, Emit, Next;
    var xs := Downmix([left, right], 1);
    if s.Running() && !s.havePrevious {
      FirstStep(s, xs[0]);
    }
  }

  lemma FirstStep(s: State, x: int)
    requires s.Running() && !s.havePrevious && IsSample(x)
    ensures Emit(s, x) == [x] && Next(s, x) == s.(previous := x, havePrevious := true)
  {
  }

  /**
   One pushed frame is consumed exactly when it closes fewer than two output
   instants; otherwise the call returns 0 and drops the frame.
   */
  lemma PushConsumesIff(s: State, x: int)
    requires s.Running() && IsSample(x)
    ensures Call(s, [x], 1).consumed == 1 <==> !s.havePrevious || s.phase + s.outputRate < 2 * s.inputRate
    ensures Call(s, [x], 1).consumed == 0 ==> Call(s, [x], 1) == Result([], s, 0)
  {
    hide Emit, Next;
    if s.havePrevious {
      StepOf(s, x);
      QuotientBelowTwo(s.phase + s.outputRate, s.inputRate);
    } else {
      FirstStep(s, x);
    }
  }

  lemma QuotientBelowTwo(a: nat, b: nat)
    requires b > 0
    ensures a / b <= 1 <==> a < 2 * b
  {
  }

  /** One `push` call per sample. */
  function Pushes(xs: seq<int>): (cs: seq<Chunk>)
    requires AreSamples(xs)
    ensures AreChunks(cs)
  {
    if xs == [] then [] else [Chunk([xs[0]], 1)] + Pushes(xs[1..])
  }

  lemma {:induction false} PushesUnfold(s: State, xs: seq<int>)
    requires s.Running() && AreSamples(xs) && xs != []
    ensures var a := Call(s, [xs[0]], 1);
            && Calls(s, Pushes(xs)) == (a.out + Calls(a.state, Pushes(xs[1..])).0, Calls(a.state, Pushes(xs[1..])).1)
            && (NoneBinds(s, Pushes(xs)) <==> a.consumed == 1 && NoneBinds(a.state, Pushes(xs[1..])))
  {
    hide Call;
    var cs := Pushes(xs);
    assert cs[0] == Chunk([xs[0]], 1) && cs[1..] == Pushes(xs[1..]);
  }

  /** Every further push is refused. */
  predicate Stalled(s: State) {
    s.havePrevious && s.phase + s.outputRate >= 2 * s.inputRate
  }

  /** Once stalled, no sequence of pushes changes anything. */
  lemma {:induction false} StalledForever(s: State, xs: seq<int>)
    requires s.Running() && Stalled(s) && AreSamples(xs)
    ensures Calls(s, Pushes(xs)) == ([], s)
    ensures xs != [] ==> !NoneBinds(s, Pushes(xs))
    decreases |xs|
  {
    hide Call;
    if xs != [] {
      PushConsumesIff(s, xs[0]);
      PushesUnfold(s, xs);
      StalledForever(s, xs[1..]);
      assert Call(s, [xs[0]], 1) == Result([], s, 0);
      var rest := Calls(s, Pushes(xs[1..])).0;
      assert [] + rest == rest;
    }
  }

  /** A push that is taken moves the phase by the difference of the rates, or keeps it below the input rate. */
  lemma {:induction false} PushTaken(s: State, x: int)
    requires s.Running() && IsSample(x) && !Stalled(s)
    ensures var t := Call(s, [x], 1).state;
            && Call(s, [x], 1).consumed == 1 && t.havePrevious
            && (!s.havePrevious ==> t.phase == s.phase)
            && (s.havePrevious && s.outputRate > s.inputRate ==> t.phase == s.phase + s.outputRate - s.inputRate)
  {
    hide Emit, Next;
    PushConsumesIff(s, x);
    assert [x][1..] == [];
    assert Run(Next(s, x), [], 1 - |Emit(s, x)|).state == Next(s, x);
    if s.havePrevious {
      NextPhase(s, x);
    } else {
      FirstStep(s, x);
    }
  }

  lemma {:induction false} NextPhase(s: State, x: int)
    requires s.Running() && IsSample(x) && s.havePrevious
    requires s.phase + s.outputRate < 2 * s.inputRate
    ensures s.outputRate > s.inputRate ==> Next(s, x).phase == s.phase + s.outputRate - s.inputRate
  {
    if s.outputRate > s.inputRate {
      DivModUnique(s.phase + s.outputRate, s.inputRate, 1, s.phase + s.outputRate - s.inputRate);
    }
  }

  /** With at most as many outputs as inputs, every push of every stream is taken. */
  lemma {:induction false} PushesKeepUp(s: State, xs: seq<int>)
    requires s.Running() && s.outputRate <= s.inputRate && AreSamples(xs)
    ensures NoneBinds(s, Pushes(xs))
    decreases |xs|
  {
    hide Call;
    if xs != [] {
      PushTaken(s, xs[0]);
      PushesUnfold(s, xs);
      PushesKeepUp(Call(s, [xs[0]], 1).state, xs[1..]);
    }
  }

  /**
   With more outputs than inputs, pushing stalls after a number of frames that the rates and
   the phase determine, whatever the samples are.
   */
  lemma {:induction false} PushStallsIff(s: State, xs: seq<int>)
    requires s.Running() && s.havePrevious && s.outputRate > s.inputRate && AreSamples(xs)
    ensures Stalled(Calls(s, Pushes(xs)).1) <==>
            s.phase + s.outputRate + |xs| * (s.outputRate - s.inputRate) >= 2 * s.inputRate
    decreases |xs|
  {
    hide Call, Calls, Pushes;
    Multiples(|xs|, s.outputRate - s.inputRate);
    if Stalled(s) {
      StalledForever(s, xs);
    } else if xs == [] {
      NoPushes(s);
    } else {
      PushTaken(s, xs[0]);
      PushesUnfold(s, xs);
      PushStallsIff(Call(s, [xs[0]], 1).state, xs[1..]);
    }
  }

  /** At the latest after as many frames as the phase is short of the input rate. */
  lemma {:induction false} PushStallsSoon(s: State, xs: seq<int>)
    requires s.Running() && s.havePrevious && s.outputRate > s.inputRate && AreSamples(xs)
    requires |xs| >= s.inputRate - s.phase
    ensures Stalled(Calls(s, Pushes(xs)).1)
  {
    hide Calls, Pushes;
    PushStallsIff(s, xs);
    Multiples(|xs|, s.outputRate - s.inputRate);
  }

  lemma {:induction false} Multiples(n: nat, d: nat)
    requires d > 0
    ensures n * d >= n && (n > 0 ==> n * d == d + (n - 1) * d)
  {
  }

  lemma {:induction false} NoPushes(s: State)
    requires s.Running()
    ensures Calls(s, Pushes([])) == ([], s)
  {
  }

  /** Pushing keeps up with every stream exactly when the output rate is not above the input rate. */
  lemma {:induction false} PushKeepsUpIff(s: State)
    requires s.Running()
    ensures (forall xs | AreSamples(xs) :: NoneBinds(s, Pushes(xs))) <==> s.outputRate <= s.inputRate
  {
    if s.outputRate <= s.inputRate {
      forall xs | AreSamples(xs) ensures NoneBinds(s, Pushes(xs)) {
        PushesKeepUp(s, xs);
      }
    } else {
      var xs := seq(s.inputRate + 2, _ => 0);
      PushFallsBehind(s, xs);
    }
  }

  lemma {:induction false} PushFallsBehind(s: State, xs: seq<int>)
    requires s.Running() && s.outputRate > s.inputRate && AreSamples(xs) && |xs| >= s.inputRate + 2
    ensures !NoneBinds(s, Pushes(xs))
  {
    hide Call, Pushes, NoneBinds, Calls;
    if s.havePrevious {
      FallsBehind(s, xs);
    } else {
      PushTaken(s, xs[0]);
      PushesUnfold(s, xs);
      FallsBehind(Call(s, [xs[0]], 1).state, xs[1..]);
    }
  }

  lemma {:induction false} FallsBehind(s: State, xs: seq<int>)
    requires s.Running() && s.havePrevious && s.outputRate > s.inputRate && AreSamples(xs)
    requires |xs| > s.inputRate - s.phase
    ensures !NoneBinds(s, Pushes(xs))
    decreases |xs|
  {
    hide Call;
    if Stalled(s) {
      StalledForever(s, xs);
    } else {
      PushTaken(s, xs[0]);
      PushesUnfold(s, xs);
      FallsBehind(Call(s, [xs[0]], 1).state, xs[1..]);
    }
  }
}
