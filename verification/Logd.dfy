/**
 The bounded RAM journal of the log service, userspace/sf2000-logd.c. The storage is a list of
 writes, each of which went through whole or stopped after a part; which of the two happens is
 an input of every step.
 */
module Logd {

  const BUFFER_SIZE: nat := 512 * 1024
  const FLUSH_BYTES: nat := 128 * 1024

  datatype Chunk = Chunk(data: seq<char>, whole: bool)

  /** How a `write_all` ends: complete, or failed after `part` bytes. */
  datatype Outcome = Whole | Torn(part: nat)

  datatype State = State(
    buffer: seq<char>,
    dropped: nat,
    peak: nat,
    open: bool,
    deferred: bool,
    file: seq<Chunk>)

  function Written(data: seq<char>, o: Outcome): Chunk {
    match o
    case Whole => Chunk(data, true)
    case Torn(part) => Chunk(if part < |data| then data[..part] else data, false)
  }

  /** `write_all` of the whole buffer, which is emptied if that succeeds. */
  function Drain(s: State, o: Outcome): State {
    var file := s.file + [Written(s.buffer, o)];
    if o.Whole? then s.(buffer := [], file := file) else s.(file := file)
  }

  /** `flush_log`. */
  function Flush(s: State, o: Outcome): State {
    if s.deferred || !s.open || s.buffer == [] then s else Drain(s, o)
  }

  /** `force_flush_log`. */
  function ForceFlush(s: State, o: Outcome): State {
    if !s.open || s.buffer == [] then s else Drain(s, o)
  }

  function Max(a: nat, b: nat): nat {
    if a < b then b else a
  }

  /** Gives up the oldest bytes so that `length` more fit. */
  function MakeRoom(s: State, length: nat): State
    requires length <= BUFFER_SIZE && |s.buffer| <= BUFFER_SIZE
  {
    if |s.buffer| + length <= BUFFER_SIZE then s
    else
      var discard := |s.buffer| + length - BUFFER_SIZE;
      s.(buffer := s.buffer[discard..], dropped := s.dropped + discard)
  }

  function Extend(s: State, text: seq<char>): State {
    s.(buffer := s.buffer + text, peak := Max(s.peak, |s.buffer + text|))
  }

  /** `append_bytes` of more than the buffer holds. */
  function AppendOversize(s: State, text: seq<char>, first: Outcome, second: Outcome): State
    requires |text| > BUFFER_SIZE
  {
    if !s.deferred && s.open then
      var f := Flush(s, first);
      f.(file := f.file + [Written(text, second)])
    else
      s.(buffer := text[|text| - BUFFER_SIZE..], dropped := s.dropped + |text| - BUFFER_SIZE, peak := BUFFER_SIZE)
  }

  /** `append_bytes`; the outcomes are those of the flush before and the write or flush after. */
  function Append(s: State, text: seq<char>, first: Outcome, second: Outcome): State
    requires |s.buffer| <= BUFFER_SIZE
  {
    if text == [] then s
    else if |text| > BUFFER_SIZE then AppendOversize(s, text, first, second)
    else
      var f := if |s.buffer| + |text| > BUFFER_SIZE then Flush(s, first) else s;
      var e := Extend(MakeRoom(f, |text|), text);
      if |e.buffer| >= FLUSH_BYTES then Flush(e, second) else e
  }

  // ----- runs -----

  datatype Step =
    | AppendBytes(text: seq<char>, first: Outcome, second: Outcome)
    | FlushLog(o: Outcome)
    | Checkpoint(o: Outcome)
    | JournalBegin(o: Outcome)
    | JournalEnd(o: Outcome)
    | Shutdown(o: Outcome)
    /** The log file is closed after a flush, or opened. */
    | Rebind(o: Outcome, open: bool)

  function Apply(s: State, step: Step): State
    requires |s.buffer| <= BUFFER_SIZE
  {
    match step
    case AppendBytes(text, first, second) => Append(s, text, first, second)
    case FlushLog(o) => Flush(s, o)
    case Checkpoint(o) => ForceFlush(s, o)
    case JournalBegin(o) =>
      if s.deferred then s
      else
        var f := Flush(s, o);
        f.(deferred := true, peak := |f.buffer|, dropped := 0)
    case JournalEnd(o) => Flush(s.(deferred := false), o)
    case Shutdown(o) => Flush(s.(deferred := false), o)
    case Rebind(o, open) => (if s.open then Flush(s, o) else s).(open := open)
  }

  function TextOf(step: Step): seq<char> {
    if step.AppendBytes? then step.text else []
  }

  lemma {:induction false} ApplyKeepsBounds(s: State, step: Step)
    requires |s.buffer| <= s.peak <= BUFFER_SIZE
    ensures var e := Apply(s, step); |e.buffer| <= e.peak <= BUFFER_SIZE
  {
  }

  // ----- subsequences -----

  predicate Subsequence(a: seq<char>, b: seq<char>)
    decreases |b|
  {
    if a == [] then true
    else if b == [] then false
    else
      || Subsequence(a, b[..|b| - 1])
      || (a[|a| - 1] == b[|b| - 1] && Subsequence(a[..|a| - 1], b[..|b| - 1]))
  }

  lemma {:induction false} SubsequenceSkip(a: seq<char>, b: seq<char>, x: seq<char>)
    requires Subsequence(a, b)
    ensures Subsequence(a, b + x)
    decreases |x|
  {
    if x == [] {
      assert b + x == b;
    } else {
      var n := |x| - 1;
      SubsequenceSkip(a, b, x[..n]);
      assert (b + x)[..|b| + n] == b + x[..n];
    }
  }

  lemma {:induction false} SubsequenceBoth(a: seq<char>, b: seq<char>, x: seq<char>)
    requires Subsequence(a, b)
    ensures Subsequence(a + x, b + x)
    decreases |x|
  {
    if x == [] {
      assert a + x == a && b + x == b;
    } else {
      var n := |x| - 1;
      SubsequenceBoth(a, b, x[..n]);
      assert (a + x)[..|a| + n] == a + x[..n] && (b + x)[..|b| + n] == b + x[..n];
    }
  }

  // ----- what the file keeps -----

  /** The data of the writes that went through whole. */
  function Kept(file: seq<Chunk>): seq<char>
    decreases |file|
  {
    if file == [] then []
    else Kept(file[..|file| - 1]) + (if file[|file| - 1].whole then file[|file| - 1].data else [])
  }

  lemma {:induction false} KeptAppend(file: seq<Chunk>, c: Chunk)
    ensures Kept(file + [c]) == Kept(file) + (if c.whole then c.data else [])
  {
    assert (file + [c])[..|file|] == file;
  }

  /**
   The buffer is the end of everything appended so far, and the file holds part of what came
   before it, in order.
   */
  ghost predicate InOrder(s: State, appended: seq<char>) {
    exists past :: appended == past + s.buffer && Subsequence(Kept(s.file), past)
  }

  /** File and buffer together are a subsequence of the appended stream. */
  lemma {:induction false} InOrderTogether(s: State, appended: seq<char>)
    requires InOrder(s, appended)
    ensures Subsequence(Kept(s.file) + s.buffer, appended)
  {
    hide Kept, Subsequence;
    var past :| appended == past + s.buffer && Subsequence(Kept(s.file), past);
    SubsequenceBoth(Kept(s.file), past, s.buffer);
  }

  lemma {:induction false} DrainInOrder(s: State, appended: seq<char>, o: Outcome)
    requires InOrder(s, appended)
    ensures InOrder(Drain(s, o), appended)
  {
    hide Kept, Subsequence;
    var past :| appended == past + s.buffer && Subsequence(Kept(s.file), past);
    KeptAppend(s.file, Written(s.buffer, o));
    assert Kept(s.file) + [] == Kept(s.file);
    if o.Whole? {
      SubsequenceBoth(Kept(s.file), past, s.buffer);
      assert appended == appended + [];
    }
  }

  lemma {:induction false} DiscardInOrder(s: State, appended: seq<char>, discard: nat)
    requires InOrder(s, appended) && discard <= |s.buffer|
    ensures InOrder(s.(buffer := s.buffer[discard..]), appended)
  {
    hide Kept, Subsequence;
    var past :| appended == past + s.buffer && Subsequence(Kept(s.file), past);
    SubsequenceSkip(Kept(s.file), past, s.buffer[..discard]);
    assert appended == (past + s.buffer[..discard]) + s.buffer[discard..];
  }

  lemma {:induction false} ExtendInOrder(s: State, appended: seq<char>, text: seq<char>)
    requires InOrder(s, appended)
    ensures InOrder(s.(buffer := s.buffer + text), appended + text)
  {
    hide Kept, Subsequence;
    var past :| appended == past + s.buffer && Subsequence(Kept(s.file), past);
    assert appended + text == past + (s.buffer + text);
  }

  /** Order depends on the buffer and the file alone. */
  lemma {:induction false} SameOrder(s: State, t: State, appended: seq<char>)
    requires s.buffer == t.buffer && s.file == t.file
    ensures InOrder(s, appended) == InOrder(t, appended)
  {
  }

  lemma {:induction false} FlushInOrder(s: State, appended: seq<char>, o: Outcome)
    requires InOrder(s, appended)
    ensures InOrder(Flush(s, o), appended) && InOrder(ForceFlush(s, o), appended)
  {
    hide InOrder;
    DrainInOrder(s, appended, o);
  }

  /** An oversized text overtakes the buffer when the flush before it fails. */
  predicate Overtakes(s: State, step: Step) {
    && step.AppendBytes? && |step.text| > BUFFER_SIZE && !s.deferred && s.open
    && s.buffer != [] && step.first.Torn?
  }

  lemma {:induction false} OversizeInOrder(s: State, appended: seq<char>, text: seq<char>, first: Outcome, second: Outcome)
    requires InOrder(s, appended) && |text| > BUFFER_SIZE && !Overtakes(s, AppendBytes(text, first, second))
    ensures InOrder(AppendOversize(s, text, first, second), appended + text)
  {
    hide Kept, Subsequence, InOrder;
    if !s.deferred && s.open {
      FlushInOrder(s, appended, first);
      var f := Flush(s, first);
      assert f.buffer == [];
      ExtendInOrder(f, appended, text);
      var g := f.(buffer := [] + text);
      SameOrder(g, f.(buffer := text), appended + text);
      DrainInOrder(f.(buffer := text), appended + text, second);
      if second.Torn? {
        var t := Drain(f.(buffer := text), second);
        DiscardInOrder(t, appended + text, |text|);
        SameOrder(t.(buffer := text[|text|..]), f.(file := f.file + [Written(text, second)]), appended + text);
      } else {
        SameOrder(Drain(f.(buffer := text), second), f.(file := f.file + [Written(text, second)]), appended + text);
      }
    } else {
      ExtendInOrder(s, appended, text);
      var t := s.(buffer := s.buffer + text);
      DiscardInOrder(t, appended + text, |s.buffer| + |text| - BUFFER_SIZE);
      assert t.buffer[|s.buffer| + |text| - BUFFER_SIZE..] == text[|text| - BUFFER_SIZE..];
      SameOrder(t.(buffer := text[|text| - BUFFER_SIZE..]), AppendOversize(s, text, first, second), appended + text);
    }
  }

  lemma {:induction false} AppendInOrder(s: State, appended: seq<char>, text: seq<char>, first: Outcome, second: Outcome)
    requires InOrder(s, appended) && |s.buffer| <= BUFFER_SIZE && !Overtakes(s, AppendBytes(text, first, second))
    ensures InOrder(Append(s, text, first, second), appended + text)
  {
    hide Kept, Subsequence, InOrder, AppendOversize, Overtakes;
    if text == [] {
      assert appended + text == appended;
    } else if |text| > BUFFER_SIZE {
      OversizeInOrder(s, appended, text, first, second);
    } else {
      FlushInOrder(s, appended, first);
      var f := if |s.buffer| + |text| > BUFFER_SIZE then Flush(s, first) else s;
      var m := MakeRoom(f, |text|);
      var discard := if |f.buffer| + |text| <= BUFFER_SIZE then 0 else |f.buffer| + |text| - BUFFER_SIZE;
      DiscardInOrder(f, appended, discard);
      SameOrder(f.(buffer := f.buffer[discard..]), m, appended);
      ExtendInOrder(m, appended, text);
      SameOrder(m.(buffer := m.buffer + text), Extend(m, text), appended + text);
      FlushInOrder(Extend(m, text), appended + text, second);
    }
  }

  lemma {:induction false} ApplyInOrder(s: State, appended: seq<char>, step: Step)
    requires InOrder(s, appended) && |s.buffer| <= BUFFER_SIZE && !Overtakes(s, step)
    ensures InOrder(Apply(s, step), appended + TextOf(step))
  {
    hide InOrder, Append, Overtakes, Flush, ForceFlush;
    assert !step.AppendBytes? ==> appended + TextOf(step) == appended;
    match step
    case AppendBytes(text, first, second) => AppendInOrder(s, appended, text, first, second);
    case FlushLog(o) => FlushInOrder(s, appended, o);
    case Checkpoint(o) => FlushInOrder(s, appended, o);
    case JournalBegin(o) =>
      FlushInOrder(s, appended, o);
      SameOrder(if s.deferred then s else Flush(s, o), Apply(s, step), appended);
    case JournalEnd(o) =>
      SameOrder(s, s.(deferred := false), appended);
      FlushInOrder(s.(deferred := false), appended, o);
    case Shutdown(o) =>
      SameOrder(s, s.(deferred := false), appended);
      FlushInOrder(s.(deferred := false), appended, o);
    case Rebind(o, open) =>
      FlushInOrder(s, appended, o);
      SameOrder(if s.open then Flush(s, o) else s, Apply(s, step), appended);
  }

  // ----- where the bytes go -----

  /** Bytes a step adds to `log_dropped`. */
  function DroppedBy(s: State, step: Step): int
    requires |s.buffer| <= BUFFER_SIZE
  {
    if step.AppendBytes? then Apply(s, step).dropped - s.dropped else 0
  }

  /** Bytes that only the oversize branch loses without counting them. */
  function LostBy(s: State, step: Step): nat {
    if step.AppendBytes? && |step.text| > BUFFER_SIZE then
      if s.deferred || !s.open then |s.buffer| else if step.second.Torn? then |step.text| else 0
    else 0
  }

  function Held(s: State): nat {
    |Kept(s.file)| + |s.buffer|
  }

  lemma {:induction false} FlushHolds(s: State, o: Outcome)
    ensures Held(Flush(s, o)) == Held(ForceFlush(s, o)) == Held(s)
  {
    hide Kept;
    KeptAppend(s.file, Written(s.buffer, o));
  }

  lemma {:induction false} OversizeHolds(s: State, text: seq<char>, first: Outcome, second: Outcome)
    requires |text| > BUFFER_SIZE
    ensures var e := AppendOversize(s, text, first, second);
            Held(e) + (e.dropped - s.dropped) + LostBy(s, AppendBytes(text, first, second)) == Held(s) + |text|
  {
    hide Kept, Flush, ForceFlush;
    FlushHolds(s, first);
    FlushFrame(s, first);
    KeptAppend(Flush(s, first).file, Written(text, second));
  }

  /** Making room and extending the buffer. */
  lemma {:induction false} ExtendHolds(f: State, text: seq<char>)
    requires |text| <= BUFFER_SIZE && |f.buffer| <= BUFFER_SIZE
    ensures var e := Extend(MakeRoom(f, |text|), text);
            Held(e) + (e.dropped - f.dropped) == Held(f) + |text| && |e.buffer| <= BUFFER_SIZE
  {
    hide Kept;
  }

  lemma {:induction false} AppendHolds(s: State, text: seq<char>, first: Outcome, second: Outcome)
    requires |s.buffer| <= BUFFER_SIZE
    ensures var e := Append(s, text, first, second);
            Held(e) + (e.dropped - s.dropped) + LostBy(s, AppendBytes(text, first, second)) == Held(s) + |text|
  {
    hide Kept, Flush, ForceFlush, AppendOversize, Held, MakeRoom, Extend;
    if |text| > BUFFER_SIZE {
      OversizeHolds(s, text, first, second);
    } else {
      FlushHolds(s, first);
      FlushFrame(s, first);
      var f := if |s.buffer| + |text| > BUFFER_SIZE then Flush(s, first) else s;
      var e := Extend(MakeRoom(f, |text|), text);
      ExtendHolds(f, text);
      FlushHolds(e, second);
      FlushFrame(e, second);
    }
  }

  lemma {:induction false} FlushFrame(s: State, o: Outcome)
    ensures var f := Flush(s, o); f.dropped == s.dropped && |f.buffer| <= |s.buffer|
  {
  }

  /** Every byte of a step is in the file, in the buffer, counted as dropped, or lost by the oversize branch. */
  lemma {:induction false} ApplyConserves(s: State, step: Step)
    requires |s.buffer| <= BUFFER_SIZE
    ensures Held(Apply(s, step)) + DroppedBy(s, step) + LostBy(s, step) == Held(s) + |TextOf(step)|
    ensures DroppedBy(s, step) >= 0
  {
    hide Kept, Append;
    match step
    case AppendBytes(text, first, second) =>
      AppendHolds(s, text, first, second);
      AppendDrops(s, text, first, second);
    case FlushLog(o) => FlushHolds(s, o);
    case Checkpoint(o) => FlushHolds(s, o);
    case JournalBegin(o) => FlushHolds(s, o);
    case JournalEnd(o) => FlushHolds(s.(deferred := false), o);
    case Shutdown(o) => FlushHolds(s.(deferred := false), o);
    case Rebind(o, _) => FlushHolds(s, o);
  }

  lemma {:induction false} AppendDrops(s: State, text: seq<char>, first: Outcome, second: Outcome)
    requires |s.buffer| <= BUFFER_SIZE
    ensures Append(s, text, first, second).dropped >= s.dropped
  {
  }

  // ----- whole runs -----

  const START := State([], 0, 0, false, false, [])

  function Run(steps: seq<Step>): (s: State)
    ensures |s.buffer| <= s.peak <= BUFFER_SIZE
    decreases |steps|
  {
    if steps == [] then START
    else
      var before := Run(steps[..|steps| - 1]);
      ApplyKeepsBounds(before, steps[|steps| - 1]);
      Apply(before, steps[|steps| - 1])
  }

  function Appended(steps: seq<Step>): seq<char>
    decreases |steps|
  {
    if steps == [] then [] else Appended(steps[..|steps| - 1]) + TextOf(steps[|steps| - 1])
  }

  function Dropped(steps: seq<Step>): int
    decreases |steps|
  {
    if steps == [] then 0
    else Dropped(steps[..|steps| - 1]) + DroppedBy(Run(steps[..|steps| - 1]), steps[|steps| - 1])
  }

  function Lost(steps: seq<Step>): nat
    decreases |steps|
  {
    if steps == [] then 0
    else Lost(steps[..|steps| - 1]) + LostBy(Run(steps[..|steps| - 1]), steps[|steps| - 1])
  }

  /** No oversized text was written past a buffer that could not be flushed. */
  ghost predicate NeverOvertaken(steps: seq<Step>) {
    forall i | 0 <= i < |steps| :: !Overtakes(Run(steps[..i]), steps[i])
  }

  /** In every run the buffer is a suffix of the appended stream, and what the file keeps came before it in order. */
  lemma {:induction false} RunsKeepOrder(steps: seq<Step>)
    requires NeverOvertaken(steps)
    ensures InOrder(Run(steps), Appended(steps))
    ensures Subsequence(Kept(Run(steps).file) + Run(steps).buffer, Appended(steps))
    decreases |steps|
  {
    hide InOrder, Apply, Overtakes, Subsequence, Kept;
    if steps == [] {
      StartInOrder();
    } else {
      var n := |steps| - 1;
      var before := steps[..n];
      forall i | 0 <= i < n ensures !Overtakes(Run(before[..i]), before[i]) {
        assert before[..i] == steps[..i];
      }
      RunsKeepOrder(before);
      ApplyInOrder(Run(before), Appended(before), steps[n]);
    }
    InOrderTogether(Run(steps), Appended(steps));
  }

  lemma {:induction false} StartInOrder()
    ensures InOrder(START, [])
  {
    assert [] == [] + START.buffer && Subsequence(Kept(START.file), []);
  }

  /** Conservation over every run, including failed writes and oversized texts. */
  lemma {:induction false} RunsConserve(steps: seq<Step>)
    ensures Held(Run(steps)) + Dropped(steps) + Lost(steps) == |Appended(steps)|
    decreases |steps|
  {
    hide Apply, DroppedBy, LostBy, Kept;
    if steps == [] {
      NothingKept();
    } else {
      var n := |steps| - 1;
      RunsConserve(steps[..n]);
      ApplyConserves(Run(steps[..n]), steps[n]);
    }
  }

  lemma {:induction false} NothingKept()
    ensures Kept([]) == []
  {
  }

  /** The oversize branch that overwrites a nonempty buffer, or whose own write fails. */
  predicate Loses(s: State, step: Step) {
    && step.AppendBytes? && |step.text| > BUFFER_SIZE
    && (if s.deferred || !s.open then s.buffer != [] else step.second.Torn?)
  }

  ghost predicate NeverLoses(steps: seq<Step>) {
    forall i | 0 <= i < |steps| :: !Loses(Run(steps[..i]), steps[i])
  }

  /** Written, buffered and dropped bytes add up to the appended ones exactly when no step loses. */
  lemma {:induction false} AccountingIsCompleteIff(steps: seq<Step>)
    ensures Held(Run(steps)) + Dropped(steps) == |Appended(steps)| <==> NeverLoses(steps)
  {
    hide Run, Appended, Dropped, Kept, NeverLoses, Held;
    RunsConserve(steps);
    LostIff(steps);
  }

  lemma {:induction false} LostIff(steps: seq<Step>)
    ensures Lost(steps) == 0 <==> NeverLoses(steps)
    decreases |steps|
  {
    hide Run, LostBy, Loses, NeverLoses;
    NeverLosesStep(steps);
    if steps != [] {
      var n := |steps| - 1;
      LostIff(steps[..n]);
      LosesIff(Run(steps[..n]), steps[n]);
    }
  }

  lemma {:induction false} NeverLosesStep(steps: seq<Step>)
    ensures NeverLoses([])
    ensures steps != [] ==>
              var n := |steps| - 1;
              NeverLoses(steps) == (NeverLoses(steps[..n]) && !Loses(Run(steps[..n]), steps[n]))
  {
    hide Run, Loses;
    if steps != [] {
      var n := |steps| - 1;
      var before := steps[..n];
      assert forall i | 0 <= i < n :: before[..i] == steps[..i] && before[i] == steps[i];
      assert forall i | 0 <= i < n :: Loses(Run(before[..i]), before[i]) == Loses(Run(steps[..i]), steps[i]);
    }
  }

  lemma {:induction false} LosesIff(s: State, step: Step)
    ensures LostBy(s, step) > 0 <==> Loses(s, step)
  {
  }

  // ----- the bytes of the file -----

  /** Everything that reached the file, parts of failed writes included. */
  function FileBytes(file: seq<Chunk>): seq<char>
    decreases |file|
  {
    if file == [] then [] else FileBytes(file[..|file| - 1]) + file[|file| - 1].data
  }

  lemma {:induction false} FileBytesAppend(file: seq<Chunk>, c: Chunk)
    ensures FileBytes(file + [c]) == FileBytes(file) + c.data
  {
    assert (file + [c])[..|file|] == file;
  }

  /** Failed writes left nothing behind. */
  ghost predicate NoScraps(file: seq<Chunk>) {
    forall i | 0 <= i < |file| && !file[i].whole :: file[i].data == []
  }

  lemma {:induction false} NoScrapsIsKept(file: seq<Chunk>)
    requires NoScraps(file)
    ensures FileBytes(file) == Kept(file)
    decreases |file|
  {
    if file != [] {
      NoScrapsIsKept(file[..|file| - 1]);
    }
  }

  predicate FailsClean(o: Outcome) {
    o.Torn? ==> o.part == 0
  }

  predicate StepFailsClean(step: Step) {
    match step
    case AppendBytes(_, first, second) => FailsClean(first) && FailsClean(second)
    case FlushLog(o) => FailsClean(o)
    case Checkpoint(o) => FailsClean(o)
    case JournalBegin(o) => FailsClean(o)
    case JournalEnd(o) => FailsClean(o)
    case Shutdown(o) => FailsClean(o)
    case Rebind(o, _) => FailsClean(o)
  }

  lemma {:induction false} WrittenNoScraps(file: seq<Chunk>, data: seq<char>, o: Outcome)
    requires NoScraps(file) && FailsClean(o)
    ensures NoScraps(file + [Written(data, o)])
  {
  }

  lemma {:induction false} FlushNoScraps(s: State, o: Outcome)
    requires NoScraps(s.file) && FailsClean(o)
    ensures NoScraps(Flush(s, o).file) && NoScraps(ForceFlush(s, o).file)
  {
    hide NoScraps, Written;
    WrittenNoScraps(s.file, s.buffer, o);
  }

  lemma {:induction false} AppendNoScraps(s: State, text: seq<char>, first: Outcome, second: Outcome)
    requires |s.buffer| <= BUFFER_SIZE && NoScraps(s.file) && FailsClean(first) && FailsClean(second)
    ensures NoScraps(Append(s, text, first, second).file)
  {
    hide NoScraps, Written, Flush, FailsClean, ForceFlush, MakeRoom, Extend, AppendOversize;
    if |text| > BUFFER_SIZE {
      OversizeNoScraps(s, text, first, second);
    } else if text != [] {
      FlushNoScraps(s, first);
      FlushFrame(s, first);
      var f := if |s.buffer| + |text| > BUFFER_SIZE then Flush(s, first) else s;
      RoomKeepsFile(f, text);
      FlushNoScraps(Extend(MakeRoom(f, |text|), text), second);
    }
  }

  lemma {:induction false} OversizeNoScraps(s: State, text: seq<char>, first: Outcome, second: Outcome)
    requires |text| > BUFFER_SIZE && NoScraps(s.file) && FailsClean(first) && FailsClean(second)
    ensures NoScraps(AppendOversize(s, text, first, second).file)
  {
    hide NoScraps, Written, Flush, FailsClean, ForceFlush;
    FlushNoScraps(s, first);
    WrittenNoScraps(Flush(s, first).file, text, second);
  }

  lemma {:induction false} RoomKeepsFile(f: State, text: seq<char>)
    requires |text| <= BUFFER_SIZE && |f.buffer| <= BUFFER_SIZE
    ensures Extend(MakeRoom(f, |text|), text).file == f.file
  {
  }

  lemma {:induction false} ApplyNoScraps(s: State, step: Step)
    requires |s.buffer| <= BUFFER_SIZE && NoScraps(s.file) && StepFailsClean(step)
    ensures NoScraps(Apply(s, step).file)
  {
    hide NoScraps, Append, Flush, ForceFlush, FailsClean;
    match step
    case AppendBytes(text, first, second) => AppendNoScraps(s, text, first, second);
    case FlushLog(o) => FlushNoScraps(s, o);
    case Checkpoint(o) => FlushNoScraps(s, o);
    case JournalBegin(o) => FlushNoScraps(s, o);
    case JournalEnd(o) => FlushNoScraps(s.(deferred := false), o);
    case Shutdown(o) => FlushNoScraps(s.(deferred := false), o);
    case Rebind(o, _) => FlushNoScraps(s, o);
  }

  /** When failed writes leave nothing behind, the actual file and the buffer are a subsequence of the stream. */
  lemma {:induction false} FileKeepsOrder(steps: seq<Step>)
    requires NeverOvertaken(steps) && forall i | 0 <= i < |steps| :: StepFailsClean(steps[i])
    ensures Subsequence(FileBytes(Run(steps).file) + Run(steps).buffer, Appended(steps))
  {
    hide Run, Subsequence, NeverOvertaken, Kept, FileBytes, NoScraps;
    RunsKeepOrder(steps);
    RunNoScraps(steps);
    NoScrapsIsKept(Run(steps).file);
  }

  lemma {:induction false} RunNoScraps(steps: seq<Step>)
    requires forall i | 0 <= i < |steps| :: StepFailsClean(steps[i])
    ensures NoScraps(Run(steps).file)
    decreases |steps|
  {
    hide Apply, StepFailsClean;
    if steps != [] {
      var n := |steps| - 1;
      RunNoScraps(steps[..n]);
      ApplyNoScraps(Run(steps[..n]), steps[n]);
    }
  }

  // ----- deferred storage -----

  /** The steps that may write while the journal is open. */
  predicate Forces(step: Step) {
    step.Checkpoint? || step.JournalEnd? || step.Shutdown?
  }

  /** From the moment a journal is open, the file stays as it is until a forced checkpoint or the end. */
  lemma {:induction false} DeferredKeepsFile(before: seq<Step>, steps: seq<Step>)
    requires Run(before).deferred && forall i | 0 <= i < |steps| :: !Forces(steps[i])
    ensures Run(before + steps).deferred && Run(before + steps).file == Run(before).file
    decreases |steps|
  {
    hide Apply;
    if steps == [] {
      assert before + steps == before;
    } else {
      var n := |steps| - 1;
      DeferredKeepsFile(before, steps[..n]);
      assert (before + steps)[..|before| + n] == before + steps[..n];
      DeferredStep(Run(before + steps[..n]), steps[n]);
    }
  }

  lemma {:induction false} DeferredStep(s: State, step: Step)
    requires s.deferred && !Forces(step) && |s.buffer| <= BUFFER_SIZE
    ensures Apply(s, step).deferred && Apply(s, step).file == s.file
  {
  }

  // ----- overtaking loses the order -----

  lemma {:induction false} OvertakenStays(s: State, text: seq<char>, first: Outcome, second: Outcome)
    requires |s.buffer| <= BUFFER_SIZE && Overtakes(s, AppendBytes(text, first, second))
    ensures Append(s, text, first, second).buffer == s.buffer
  {
  }

  /** Whenever text and unflushed buffer end in different characters, an overtaking step breaks the order. */
  lemma {:induction false} OvertakingBreaksOrder(s: State, appended: seq<char>, text: seq<char>, first: Outcome, second: Outcome)
    requires |s.buffer| <= BUFFER_SIZE && Overtakes(s, AppendBytes(text, first, second))
    requires text[|text| - 1] != s.buffer[|s.buffer| - 1]
    ensures !InOrder(Append(s, text, first, second), appended + text)
  {
    hide Append, Kept, Subsequence;
    OvertakenStays(s, text, first, second);
    var e := Append(s, text, first, second);
    var all := appended + text;
    assert all[|all| - 1] == text[|text| - 1];
    forall past ensures all != past + e.buffer {
      LastOf(past, e.buffer);
    }
  }

  lemma {:induction false} LastOf(a: seq<char>, b: seq<char>)
    requires b != []
    ensures (a + b)[|a + b| - 1] == b[|b| - 1]
  {
  }

  /** An append of `length` bytes overtakes, in terms of the state before the call and the flush in it. */
  predicate OvertakesAt(s: State, length: nat, first: Outcome) {
    length > BUFFER_SIZE && !s.deferred && s.open && s.buffer != [] && first.Torn?
  }

  /** All texts of a length keep the order exactly when the append does not overtake. */
  lemma {:induction false} OrderKeptIff(s: State, appended: seq<char>, length: nat, first: Outcome, second: Outcome)
    requires InOrder(s, appended) && |s.buffer| <= BUFFER_SIZE
    ensures (forall text: seq<char> | |text| == length :: InOrder(Append(s, text, first, second), appended + text)) <==>
            !OvertakesAt(s, length, first)
  {
    hide InOrder, Append;
    if OvertakesAt(s, length, first) {
      var c := if s.buffer[|s.buffer| - 1] == 'a' then 'b' else 'a';
      var text := seq(length, _ => c);
      assert Overtakes(s, AppendBytes(text, first, second));
      OvertakingBreaksOrder(s, appended, text, first, second);
    } else {
      forall text: seq<char> | |text| == length ensures InOrder(Append(s, text, first, second), appended + text) {
        assert !Overtakes(s, AppendBytes(text, first, second));
        AppendInOrder(s, appended, text, first, second);
      }
    }
  }

  /** Opening the file and appending one byte is enough to get there. */
  lemma {:induction false} OvertakingIsReachable(c: char, length: nat, part: nat)
    requires length > BUFFER_SIZE
    ensures var steps := [Rebind(Whole, true), AppendBytes([c], Whole, Whole)];
            && NeverOvertaken(steps) && Run(steps).buffer == [c] == Appended(steps)
            && OvertakesAt(Run(steps), length, Torn(part))
  {
    var s1, s2 := Rebind(Whole, true), AppendBytes([c], Whole, Whole);
    var steps := [s1, s2];
    assert steps[..1] == [s1] && [s1][..0] == [] && steps[..0] == [];
    assert Run([s1]) == START.(open := true);
    assert Appended([s1]) == [];
    assert [] + [c] == [c];
  }

  // ----- the code -----

  /** What one `write` call returns. */
  datatype Answer = Wrote(n: nat) | Interrupted | Error

  /** How far `write_all` gets from `done` on; running out of answers is a failure. */
  function Reach(done: nat, size: nat, answers: seq<Answer>): (k: nat)
    requires done <= size
    ensures done <= k <= size
    decreases |answers|
  {
    if done == size || answers == [] then done
    else match answers[0]
      case Interrupted => Reach(done, size, answers[1..])
      case Error => done
      case Wrote(n) => if n == 0 then done else Reach(if done + n < size then done + n else size, size, answers[1..])
  }

  function OutcomeOf(size: nat, answers: seq<Answer>): Outcome {
    var k := Reach(0, size, answers);
    if k == size then Whole else Torn(k)
  }

  lemma {:induction false} OutcomeWritten(data: seq<char>, answers: seq<Answer>)
    ensures var k := Reach(0, |data|, answers);
            var o := OutcomeOf(|data|, answers);
            Written(data, o) == Chunk(data[..k], k == |data|) && (o.Whole? <==> k == |data|)
  {
    assert data[..|data|] == data;
  }

  /** The size of the write or flush that closes an append. */
  function ClosingSize(s: State, text: seq<char>, first: Outcome): nat
    requires |s.buffer| <= BUFFER_SIZE
  {
    if |text| > BUFFER_SIZE then |text|
    else
      var f := if |s.buffer| + |text| > BUFFER_SIZE then Flush(s, first) else s;
      |Extend(MakeRoom(f, |text|), text).buffer|
  }

  class Journal {
    const buffer: array<char>
    var used: nat
    var peak: nat
    var dropped: nat
    var open: bool
    var deferred: bool
    /** The bytes in the log file. */
    var bytes: seq<char>
    /** The writes they came from. */
    ghost var file: seq<Chunk>

    constructor ()
      ensures Valid() && fresh(buffer) && View() == START
    {
      buffer := new char[BUFFER_SIZE](_ => '\0');
      used, peak, dropped, open, deferred, bytes, file := 0, 0, 0, false, false, [], [];
    }

    ghost predicate Valid()
      reads this
    {
      buffer.Length == BUFFER_SIZE && used <= peak <= BUFFER_SIZE && bytes == FileBytes(file)
    }

    ghost function View(): State
      requires Valid()
      reads this, buffer
    {
      State(buffer[..used], dropped, peak, open, deferred, file)
    }

    /**
     `write_all`: short writes are continued, interrupted ones repeated. The file gains a prefix of
     the data, and the whole exactly when 0 is returned.
     */
    method WriteAll(data: seq<char>, answers: seq<Answer>) returns (ret: int, ghost k: nat)
      requires bytes == FileBytes(file)
      modifies this`bytes, this`file
      ensures k <= |data| && bytes == old(bytes) + data[..k] && (ret == 0 <==> k == |data|) && (ret == 0 || ret == -1)
      ensures k == Reach(0, |data|, answers)
      ensures bytes == FileBytes(file) && file == old(file) + [Chunk(data[..k], k == |data|)]
    {
      var done, i := 0, 0;
      ret := 0;
      while done < |data|
        invariant done <= |data| && i <= |answers| && bytes == old(bytes) + data[..done] && file == old(file)
        invariant Reach(done, |data|, answers[i..]) == Reach(0, |data|, answers)
        decreases |answers| - i, |data| - done
      {
        if i == |answers| {
          ret := -1;
          break;
        }
        var answer := answers[i];
        assert answers[i..][0] == answer && answers[i..][1..] == answers[i + 1..];
        i := i + 1;
        match answer
        case Interrupted =>
        case Error =>
          ret := -1;
          break;
        case Wrote(n) =>
          if n == 0 {
            ret := -1;
            break;
          }
          var next := if done + n < |data| then done + n else |data|;
          assert data[..done] + data[done..next] == data[..next];
          bytes := bytes + data[done..next];
          done := next;
      }
      k := done;
      file := file + [Chunk(data[..k], k == |data|)];
      FileBytesAppend(old(file), Chunk(data[..k], k == |data|));
    }

    /** `flush_log`. */
    method FlushLog(answers: seq<Answer>) returns (ret: int)
      requires Valid()
      modifies this`bytes, this`file, this`used
      ensures Valid() && View() == Flush(old(View()), OutcomeOf(old(used), answers))
      ensures ret == 0 || ret == -1
      ensures ret == 0 <==> deferred || !open || old(used) == 0 || Reach(0, old(used), answers) == old(used)
    {
      hide FileBytes, Written, OutcomeOf, Reach;
      if deferred || !open || used == 0 {
        return 0;
      }
      OutcomeWritten(buffer[..used], answers);
      ghost var k;
      ret, k := WriteAll(buffer[..used], answers);
      if ret != 0 {
        return -1;
      }
      used := 0;
    }

    /** `force_flush_log`; `synced` is the result of the `fsync`. */
    method ForceFlushLog(answers: seq<Answer>, synced: int) returns (ret: int)
      requires Valid()
      modifies this`bytes, this`file, this`used
      ensures Valid() && View() == ForceFlush(old(View()), OutcomeOf(old(used), answers))
      ensures ret == if open && Reach(0, old(used), answers) == old(used) then synced else -1
    {
      hide FileBytes, Written, OutcomeOf;
      if !open {
        return -1;
      }
      if used != 0 {
        OutcomeWritten(buffer[..used], answers);
        ghost var k;
        ret, k := WriteAll(buffer[..used], answers);
        if ret != 0 {
          return -1;
        }
        used := 0;
      }
      return synced;
    }

    /** The branch of `append_bytes` that keeps the newest window. */
    method Discard(length: nat)
      requires Valid() && length <= BUFFER_SIZE
      modifies this`used, this`dropped, buffer
      ensures Valid() && View() == MakeRoom(old(View()), length) && used + length <= BUFFER_SIZE
    {
      if used + length > BUFFER_SIZE {
        var discard := used + length - BUFFER_SIZE;
        ghost var before := buffer[..used];
        forall i | 0 <= i < used - discard {
          buffer[i] := buffer[i + discard];
        }
        used := used - discard;
        dropped := dropped + discard;
        assert buffer[..used] == before[discard..];
      }
    }

    /** The copy at the end of `append_bytes`. */
    method Store(text: seq<char>)
      requires Valid() && used + |text| <= BUFFER_SIZE
      modifies this`used, this`peak, buffer
      ensures Valid() && View() == Extend(old(View()), text)
    {
      forall i | 0 <= i < |text| {
        buffer[used + i] := text[i];
      }
      used := used + |text|;
      if used > peak {
        peak := used;
      }
      assert buffer[..used] == old(buffer[..used]) + text;
    }

    /** The oversize branch of `append_bytes`. */
    method StoreOversize(text: seq<char>, first: seq<Answer>, second: seq<Answer>)
      requires Valid() && |text| > BUFFER_SIZE
      modifies this, buffer
      ensures Valid()
      ensures View() == AppendOversize(old(View()), text, OutcomeOf(old(used), first), OutcomeOf(|text|, second))
    {
      hide FileBytes, Written, OutcomeOf, Reach;
      if !deferred && open {
        var flushed := FlushLog(first);
        OutcomeWritten(text, second);
        var written, _ := WriteAll(text, second);
      } else {
        KeepTail(text);
      }
    }

    method KeepTail(text: seq<char>)
      requires Valid() && |text| > BUFFER_SIZE
      modifies this`used, this`peak, this`dropped, buffer
      ensures Valid() && used == peak == BUFFER_SIZE && dropped == old(dropped) + |text| - BUFFER_SIZE
      ensures buffer[..used] == text[|text| - BUFFER_SIZE..]
    {
      hide FileBytes;
      dropped := dropped + |text| - BUFFER_SIZE;
      forall i | 0 <= i < BUFFER_SIZE {
        buffer[i] := text[|text| - BUFFER_SIZE + i];
      }
      used := BUFFER_SIZE;
      peak := used;
    }

    /** `append_bytes`. */
    method AppendBytes(text: seq<char>, first: seq<Answer>, second: seq<Answer>)
      requires Valid()
      modifies this, buffer
      ensures Valid()
      ensures var s := old(View());
              var o := OutcomeOf(old(used), first);
              View() == Append(s, text, o, OutcomeOf(ClosingSize(s, text, o), second))
    {
      hide MakeRoom, Extend, Flush, AppendOversize, FileBytes, OutcomeOf;
      if text == [] {
        return;
      }
      if |text| > BUFFER_SIZE {
        StoreOversize(text, first, second);
        return;
      }
      ghost var o := OutcomeOf(used, first);
      if used + |text| > BUFFER_SIZE {
        if !deferred && open {
          var flushed := FlushLog(first);
        } else {
          NoFlush(View(), o);
        }
        FlushFrame(old(View()), o);
      }
      Discard(|text|);
      Store(text);
      if !deferred && used >= FLUSH_BYTES {
        var flushed := FlushLog(second);
      } else {
        NoFlush(View(), OutcomeOf(used, second));
      }
    }

    /** The transition into a performance session. */
    method BeginJournal(answers: seq<Answer>)
      requires Valid()
      modifies this
      ensures Valid() && View() == Apply(old(View()), JournalBegin(OutcomeOf(old(used), answers)))
    {
      if deferred {
        return;
      }
      var flushed := FlushLog(answers);
      deferred := true;
      peak := used;
      dropped := 0;
    }

    /** The transition out of a performance session, and the shutdown. */
    method EndJournal(answers: seq<Answer>)
      requires Valid()
      modifies this
      ensures Valid() && View() == Apply(old(View()), JournalEnd(OutcomeOf(old(used), answers)))
                                == Apply(old(View()), Shutdown(OutcomeOf(old(used), answers)))
    {
      deferred := false;
      var flushed := FlushLog(answers);
    }

    /** `refresh_storage_binding`: the file is flushed and closed, and perhaps opened again. */
    method Rebind(answers: seq<Answer>, opens: bool)
      requires Valid()
      modifies this
      ensures Valid() && View() == Apply(old(View()), Step.Rebind(OutcomeOf(old(used), answers), opens))
    {
      if open {
        var flushed := FlushLog(answers);
      }
      open := opens;
    }
  }

  lemma {:induction false} NoFlush(s: State, o: Outcome)
    ensures s.deferred || !s.open ==> Flush(s, o) == s
  {
  }
}
