/**
 What the journal of userspace/sf2000-logd.c keeps: nothing is dropped that fits, and a finished
 session reaches the file.
 */
module LogdWindow {
  import opened Logd

  /** The last `n` characters, or all of them. */
  function Tail(s: seq<char>, n: nat): (t: seq<char>)
    ensures |t| == (if |s| < n then |s| else n)
  {
    if |s| <= n then s else s[|s| - n..]
  }

  function Excess(n: nat): nat {
    if n <= BUFFER_SIZE then 0 else n - BUFFER_SIZE
  }

  lemma {:induction false} TailOfTail(a: seq<char>, b: seq<char>, n: nat)
    ensures Tail(Tail(a, n) + b, n) == Tail(a + b, n)
  {
  }

  // ----- one append -----

  /** An append that would overflow first flushes, if the file may be written. */
  predicate FlushesFirst(s: State, text: seq<char>) {
    |s.buffer| + |text| > BUFFER_SIZE && !s.deferred && s.open
  }

  /** What is left in the buffer by that flush. */
  function Unflushed(s: State, text: seq<char>, first: Outcome): seq<char> {
    if FlushesFirst(s, text) && first.Whole? then [] else s.buffer
  }

  /**
   Nothing is dropped that fits: before the closing flush the buffer is exactly the newest
   512 KiB of what was unflushed and the text, and the drop counter grows by the excess.
   */
  lemma {:induction false} AppendKeepsNewest(s: State, text: seq<char>, first: Outcome, second: Outcome)
    requires |s.buffer| <= BUFFER_SIZE && 0 < |text| <= BUFFER_SIZE
    ensures var e := Append(s, text, first, second);
            var u := Unflushed(s, text, first);
            var window := Tail(u + text, 0x8_0000);
            var closes := !s.deferred && s.open && |window| >= 0x2_0000;
            && e.dropped == s.dropped + Excess(|u| + |text|)
            && e.peak == Max(s.peak, |window|)
            && e.buffer == (if closes && second.Whole? then [] else window)
            && Kept(e.file) == Kept(s.file) + (if FlushesFirst(s, text) && first.Whole? then s.buffer else [])
                               + (if closes && second.Whole? then window else [])
  {
    hide Kept, MakeRoom, Extend, Flush;
    FlushMoves(s, first);
    var f := if |s.buffer| + |text| > BUFFER_SIZE then Flush(s, first) else s;
    var e := Extend(MakeRoom(f, |text|), text);
    RoomAndText(f, text);
    FlushMoves(e, second);
    assert Kept(s.file) + [] == Kept(s.file);
  }

  lemma {:induction false} RoomAndText(f: State, text: seq<char>)
    requires |f.buffer| <= BUFFER_SIZE && |text| <= BUFFER_SIZE
    ensures var e := Extend(MakeRoom(f, |text|), text);
            && e.buffer == Tail(f.buffer + text, BUFFER_SIZE)
            && e.dropped == f.dropped + Excess(|f.buffer| + |text|)
            && e.peak == Max(f.peak, |e.buffer|)
            && e.file == f.file && e.open == f.open && e.deferred == f.deferred
  {
  }

  /** A flush moves the whole buffer to the end of the file, or changes no kept byte. */
  lemma {:induction false} FlushMoves(s: State, o: Outcome)
    ensures var f := Flush(s, o);
            var moves := !s.deferred && s.open && o.Whole?;
            && f.buffer == (if moves then [] else s.buffer)
            && Kept(f.file) == Kept(s.file) + (if moves then s.buffer else [])
            && f.dropped == s.dropped && f.open == s.open && f.deferred == s.deferred && f.peak == s.peak
  {
    hide Kept;
    KeptAppend(s.file, Written(s.buffer, o));
    assert Kept(s.file) + [] == Kept(s.file);
  }

  /** A checkpoint does so also while storage is deferred. */
  lemma {:induction false} CheckpointMoves(s: State, o: Outcome)
    ensures var f := ForceFlush(s, o);
            var moves := s.open && o.Whole?;
            && f.buffer == (if moves then [] else s.buffer)
            && Kept(f.file) == Kept(s.file) + (if moves then s.buffer else [])
            && f.dropped == s.dropped && f.open == s.open && f.deferred == s.deferred
  {
    hide Kept;
    KeptAppend(s.file, Written(s.buffer, o));
    assert Kept(s.file) + [] == Kept(s.file);
  }

  /** An oversized text goes to the file whole, behind what could be flushed, or leaves its end in the buffer. */
  lemma {:induction false} OversizeMoves(s: State, text: seq<char>, first: Outcome, second: Outcome)
    requires |s.buffer| <= BUFFER_SIZE && |text| > BUFFER_SIZE
    ensures var e := Append(s, text, first, second);
            if !s.deferred && s.open then
              && e.buffer == (if first.Whole? then [] else s.buffer)
              && Kept(e.file) == Kept(s.file) + (if first.Whole? then s.buffer else [])
                                 + (if second.Whole? then text else [])
              && e.dropped == s.dropped && e.peak == s.peak
            else
              && e.buffer == Tail(text, BUFFER_SIZE) && e.file == s.file
              && e.dropped == s.dropped + |text| - BUFFER_SIZE && e.peak == BUFFER_SIZE
  {
    hide Kept, Flush;
    FlushMoves(s, first);
    KeptAppend(Flush(s, first).file, Written(text, second));
    assert Kept(s.file) + [] == Kept(s.file);
  }

  // ----- sessions -----

  /** While storage is deferred, one step slides the window over what is appended. */
  lemma {:induction false} DeferredSlides(s: State, step: Step)
    requires s.deferred && !Forces(step) && |s.buffer| <= BUFFER_SIZE
    ensures Apply(s, step).buffer == Tail(s.buffer + TextOf(step), BUFFER_SIZE)
    ensures |TextOf(step)| <= BUFFER_SIZE ==>
              Apply(s, step).dropped == s.dropped + Excess(|s.buffer| + |TextOf(step)|)
  {
    if step.AppendBytes? {
      if |step.text| > BUFFER_SIZE {
        assert Tail(s.buffer + step.text, BUFFER_SIZE) == step.text[|step.text| - BUFFER_SIZE..];
      } else {
        AppendDeferred(s, step.text, step.first, step.second);
      }
    } else {
      assert s.buffer + [] == s.buffer;
    }
  }

  lemma {:induction false} AppendDeferred(s: State, text: seq<char>, first: Outcome, second: Outcome)
    requires |s.buffer| <= BUFFER_SIZE && |text| <= BUFFER_SIZE && s.deferred
    ensures Append(s, text, first, second).buffer == Tail(s.buffer + text, BUFFER_SIZE)
    ensures Append(s, text, first, second).dropped == s.dropped + Excess(|s.buffer| + |text|)
  {
    hide Append, Kept;
    if text == [] {
      assert s.buffer + text == s.buffer;
      AppendNothing(s, first, second);
    } else {
      AppendKeepsNewest(s, text, first, second);
    }
  }

  lemma {:induction false} AppendNothing(s: State, first: Outcome, second: Outcome)
    requires |s.buffer| <= BUFFER_SIZE
    ensures Append(s, [], first, second) == s
  {
  }

  /**
   From any moment of an open journal on, until a checkpoint or its end, the buffer is the newest
   512 KiB of what it held and what has been appended since.
   */
  lemma {:induction false} JournalHoldsNewest(before: seq<Step>, steps: seq<Step>)
    requires Run(before).deferred && forall i | 0 <= i < |steps| :: !Forces(steps[i])
    ensures Run(before + steps).buffer == Tail(Run(before).buffer + Appended(steps), BUFFER_SIZE)
    decreases |steps|
  {
    hide Apply, Run, Appended, Forces, Tail, TextOf;
    var held := Run(before).buffer;
    if steps == [] {
      NothingAppended();
      assert before + steps == before && held + [] == held;
      TailAll(held);
    } else {
      var n := |steps| - 1;
      var rest := steps[..n];
      JournalHoldsNewest(before, rest);
      DeferredKeepsFile(before, rest);
      assert before + steps == before + rest + [steps[n]];
      RunStep(before + rest, steps[n]);
      AppendedStep(steps);
      DeferredSlides(Run(before + rest), steps[n]);
      TailOfTail(held + Appended(rest), TextOf(steps[n]), BUFFER_SIZE);
      assert held + Appended(steps) == held + Appended(rest) + TextOf(steps[n]);
    }
  }

  /** With appends of at most the buffer size, the counter is what no longer fits. */
  lemma {:induction false} JournalCountsDrops(before: seq<Step>, steps: seq<Step>)
    requires Run(before).deferred
    requires forall i | 0 <= i < |steps| :: !Forces(steps[i]) && !steps[i].JournalBegin? && |TextOf(steps[i])| <= BUFFER_SIZE
    ensures Run(before + steps).dropped ==
            Run(before).dropped + Excess(|Run(before).buffer| + |Appended(steps)|)
    decreases |steps|
  {
    hide Apply, Run, Appended, Forces, Tail, TextOf;
    if steps == [] {
      NothingAppended();
      assert before + steps == before;
    } else {
      var n := |steps| - 1;
      var rest := steps[..n];
      JournalCountsDrops(before, rest);
      JournalHoldsNewest(before, rest);
      DeferredKeepsFile(before, rest);
      assert before + steps == before + rest + [steps[n]];
      RunStep(before + rest, steps[n]);
      AppendedStep(steps);
      DeferredSlides(Run(before + rest), steps[n]);
    }
  }

  lemma {:induction false} NothingAppended()
    ensures Appended([]) == []
  {
  }

  lemma {:induction false} AppendedStep(steps: seq<Step>)
    requires steps != []
    ensures Appended(steps) == Appended(steps[..|steps| - 1]) + TextOf(steps[|steps| - 1])
  {
    hide TextOf;
  }

  lemma {:induction false} TailAll(s: seq<char>)
    requires |s| <= BUFFER_SIZE
    ensures Tail(s, BUFFER_SIZE) == s
  {
  }

  lemma {:induction false} RunStep(before: seq<Step>, step: Step)
    ensures Run(before + [step]) == Apply(Run(before), step)
  {
    hide Apply;
    assert (before + [step])[..|before|] == before;
  }

  /** Beginning a journal defers storage, after a last flush, and restarts the counters. */
  lemma {:induction false} BeginDefers(before: seq<Step>, o: Outcome)
    requires !Run(before).deferred
    ensures var s, b := Run(before), Run(before + [JournalBegin(o)]);
            && b.deferred && b.dropped == 0 && b.peak == |b.buffer|
            && b.buffer == (if s.open && o.Whole? then [] else s.buffer)
            && Kept(b.file) == Kept(s.file) + (if s.open && o.Whole? then s.buffer else [])
  {
    hide Kept, Flush, Run;
    RunStep(before, JournalBegin(o));
    FlushMoves(Run(before), o);
  }

  /** Ending it, or shutting down, moves the buffer to the file and allows writing again. */
  lemma {:induction false} EndDrains(before: seq<Step>, step: Step)
    requires step.JournalEnd? || step.Shutdown?
    ensures var s, f := Run(before), Run(before + [step]);
            && !f.deferred
            && f.buffer == (if s.open && step.o.Whole? then [] else s.buffer)
            && Kept(f.file) == Kept(s.file) + (if s.open && step.o.Whole? then s.buffer else [])
  {
    hide Kept, Flush, Run;
    RunStep(before, step);
    FlushMoves(Run(before).(deferred := false), step.o);
  }

  /** When the file is closed or opened, the buffer is flushed to the old one first. */
  lemma {:induction false} RebindMoves(before: seq<Step>, o: Outcome, open: bool)
    ensures var s, f := Run(before), Run(before + [Rebind(o, open)]);
            var moves := s.open && !s.deferred && o.Whole?;
            && f.open == open && f.deferred == s.deferred
            && f.buffer == (if moves then [] else s.buffer)
            && Kept(f.file) == Kept(s.file) + (if moves then s.buffer else [])
  {
    hide Kept, Flush, Run;
    RunStep(before, Rebind(o, open));
    FlushMoves(Run(before), o);
    assert Kept(Run(before).file) + [] == Kept(Run(before).file);
  }

  /**
   A whole session: what was appended between the beginning and the end of a journal is not in the
   file before the end, and afterwards its newest 512 KiB are, in order, behind what was there.
   */
  lemma {:induction false} SessionReachesFile(before: seq<Step>, o: Outcome, steps: seq<Step>, step: Step)
    requires !Run(before).deferred && (step.JournalEnd? || step.Shutdown?) && step.o.Whole?
    requires forall i | 0 <= i < |steps| :: !Forces(steps[i])
    requires Run(before + [JournalBegin(o)] + steps).open
    ensures var b, m := Run(before + [JournalBegin(o)]), Run(before + [JournalBegin(o)] + steps);
            var f := Run(before + [JournalBegin(o)] + steps + [step]);
            && m.file == b.file && f.buffer == []
            && Kept(f.file) == Kept(b.file) + Tail(b.buffer + Appended(steps), BUFFER_SIZE)
  {
    hide Kept, Run;
    BeginDefers(before, o);
    var begun := before + [JournalBegin(o)];
    DeferredKeepsFile(begun, steps);
    JournalHoldsNewest(begun, steps);
    EndDrains(begun + steps, step);
  }

  // ----- answers of `write` -----

  /** What the calls take before the first that fails or takes nothing. */
  function Accepted(answers: seq<Answer>): nat {
    if answers == [] then 0
    else match answers[0]
      case Interrupted => Accepted(answers[1..])
      case Error => 0
      case Wrote(n) => if n == 0 then 0 else n + Accepted(answers[1..])
  }

  /** `write_all` gets as far as the accepted bytes go; interruptions do not matter. */
  lemma {:induction false} ReachIs(done: nat, size: nat, answers: seq<Answer>)
    requires done <= size
    ensures Reach(done, size, answers) == if done + Accepted(answers) < size then done + Accepted(answers) else size
    decreases |answers|
  {
    if answers != [] && done < size {
      match answers[0]
      case Interrupted => ReachIs(done, size, answers[1..]);
      case Error =>
      case Wrote(n) => ReachIs(if done + n < size then done + n else size, size, answers[1..]);
    }
  }

  /** Interruptions can be left out. */
  lemma {:induction false} InterruptionsAreInvisible(a: seq<Answer>, b: seq<Answer>)
    ensures Accepted(a + [Interrupted] + b) == Accepted(a + b)
    decreases |a|
  {
    if a == [] {
      assert a + [Interrupted] + b == [Interrupted] + b && a + b == b && ([Interrupted] + b)[1..] == b;
    } else {
      assert (a + [Interrupted] + b)[1..] == a[1..] + [Interrupted] + b && (a + b)[1..] == a[1..] + b;
      InterruptionsAreInvisible(a[1..], b);
    }
  }
}
