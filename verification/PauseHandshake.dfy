/**
 The ownership handshake between sf2000-powerd and sf2000-screen over two marker files:
 the pause request, written by powerd, and the paused marker, written by the screen
 service. Each step below is one system call or one frame; the two processes interleave
 freely.
 */
module PauseHandshake {

  /** Where powerd is in `pause_screen` and `resume_screen`. */
  datatype Powerd =
    | Idle       // not pausing
    | Unlinked   // the stale paused marker has been removed
    | Waiting    // the request exists, polling for the marker
    | Owner      // pause_screen returned 0, resume_screen not called yet

  /** Where the screen service is in its console loop and in `application_pause_service`. */
  datatype Screen =
    | Top        // before the stop check and the pause service
    | Draining   // application_paused set, waiting for the graphics engine
    | Publishing // drained, about to write the marker
    | Parked     // polling for the request to disappear
    | Leaving    // the request is gone, application_paused still set
    | Unmarking  // application_paused cleared, marker still to be removed
    | Body       // reading input and drawing
    | Presenting // found no stop request, about to submit the frame
    | Exited     // left the loop on a stop request

  datatype State = State(powerd: Powerd, screen: Screen,
                         request: bool, marker: bool, paused: bool, stop: bool)

  datatype Event =
    // powerd
    | UnlinkMarker | CreateRequest | CreateFailed | PollMarker | TimeOut | Resume
    // screen
    | CheckRequest | Drained | DrainFailed | PublishMarker | PublishFailed | PollRequest
    | ClearPaused | RemoveMarker | ClearRender | CheckStop | Present | EndBody
    // the stop request of init; it is never taken back
    | StopRequested

  /** The screen starts by drawing boot frames, before it first reaches the loop head. */
  const Init := State(Idle, Body, false, false, false, false)

  predicate Enabled(s: State, e: Event) {
    match e
    case UnlinkMarker => s.powerd == Idle
    case CreateRequest => s.powerd == Unlinked
    case CreateFailed => s.powerd == Unlinked
    case PollMarker => s.powerd == Waiting
    case TimeOut => s.powerd == Waiting
    case Resume => s.powerd == Owner || s.powerd == Idle
    case CheckRequest => s.screen == Top
    case Drained => s.screen == Draining
    case DrainFailed => s.screen == Draining
    case PublishMarker => s.screen == Publishing
    case PublishFailed => s.screen == Publishing
    case PollRequest => s.screen == Parked
    case ClearPaused => s.screen == Leaving
    case RemoveMarker => s.screen == Unmarking
    case ClearRender => s.screen == Body
    case CheckStop => s.screen == Body
    case Present => s.screen == Presenting
    case EndBody => s.screen == Body
    case StopRequested => true
  }

  function Step(s: State, e: Event): State {
    match e
    case UnlinkMarker => s.(powerd := Unlinked, marker := false)
    case CreateRequest => s.(powerd := Waiting, request := true)
    case CreateFailed => s.(powerd := Idle)
    case PollMarker => if s.marker then s.(powerd := Owner) else s
    case TimeOut => s.(powerd := Idle, request := false)
    case Resume => s.(powerd := Idle, request := false)
    case CheckRequest =>
      if s.stop then s.(screen := Exited)
      else if !s.paused && !s.request then s.(screen := Body)
      else s.(screen := Draining, paused := true)
    case Drained => s.(screen := Publishing)
    case DrainFailed => s.(screen := Body)
    case PublishMarker => s.(screen := Parked, marker := true)
    case PublishFailed => s.(screen := Parked)
    case PollRequest => if s.request && !s.stop then s else s.(screen := Leaving)
    case ClearPaused => s.(screen := Unmarking, paused := false)
    case RemoveMarker => s.(screen := Body, marker := false)
    case ClearRender => s
    case CheckStop => if s.stop then s else s.(screen := Presenting)
    case Present => s.(screen := Body)
    case EndBody => s.(screen := Top)
    case StopRequested => s.(stop := true)
  }

  predicate EnabledRun(s: State, es: seq<Event>)
    decreases |es|
  {
    es == [] || (Enabled(s, es[0]) && EnabledRun(Step(s, es[0]), es[1..]))
  }

  function Final(s: State, es: seq<Event>): State
    decreases |es|
  {
    if es == [] then s else Final(Step(s, es[0]), es[1..])
  }

  /** The screen has taken a request and not yet acknowledged it. */
  predicate Acknowledging(s: State) {
    s.paused && !s.screen.Parked? && !s.screen.Leaving?
  }

  /** powerd gives up on a screen that is acknowledging and may draw again. */
  predicate GivesUp(s: State, e: Event) {
    e == TimeOut && Acknowledging(s) && !s.stop
  }

  predicate Calm(s: State, es: seq<Event>)
    decreases |es|
  {
    es == [] || (!GivesUp(s, es[0]) && Calm(Step(s, es[0]), es[1..]))
  }

  /** The screen submits a frame while powerd owns the display. */
  predicate Violates(s: State, e: Event) {
    e == Present && s.powerd == Owner
  }

  predicate Clean(s: State, es: seq<Event>)
    decreases |es|
  {
    es == [] || (!Violates(s, es[0]) && Clean(Step(s, es[0]), es[1..]))
  }

  /** What holds until a stop is requested. */
  predicate InStep(s: State) {
    && !s.screen.Exited?
    && (s.request <==> s.powerd == Waiting || s.powerd == Owner)
    && (s.screen.Draining? || s.screen.Publishing? || s.screen.Parked? || s.screen.Leaving? ==> s.paused)
    && (s.screen.Unmarking? ==> !s.paused)
    && (Acknowledging(s) ==> s.powerd == Waiting && !s.marker)
    && (s.marker ==> s.screen.Parked? || s.screen.Leaving? || s.screen.Unmarking?)
    && (s.marker && s.powerd == Waiting ==> s.screen == Parked)
    && (s.powerd == Unlinked ==> !s.marker)
    && (s.powerd == Owner ==> s.screen == Parked)
  }

  /** What every calm step keeps: a frame on its way is never acknowledged past. */
  predicate Inv(s: State) {
    && (s.screen == Presenting ==> !s.marker && s.powerd != Owner)
    && (!s.stop ==> InStep(s))
  }

  lemma {:induction false} CalmStepKeepsInv(s: State, e: Event)
    requires Inv(s) && Enabled(s, e) && !GivesUp(s, e)
    ensures Inv(Step(s, e)) && !Violates(s, e)
  {
  }

  /**
   In every calm interleaving no frame is submitted between a `pause_screen` that succeeded and
   the next `resume_screen`. Stop requests, failed engine drains, failed marker files and all
   other timeouts may happen anywhere.
   */
  lemma {:induction false} CalmRunsAreClean(s: State, es: seq<Event>)
    requires Inv(s) && EnabledRun(s, es) && Calm(s, es)
    ensures Clean(s, es) && Inv(Final(s, es))
    decreases |es|
  {
    hide Step, Enabled, Inv, Violates, GivesUp;
    if es != [] {
      CalmStepKeepsInv(s, es[0]);
      CalmRunsAreClean(Step(s, es[0]), es[1..]);
    }
  }

  lemma {:induction false} InitIsCalm()
    ensures Inv(Init)
  {
  }

  /** While powerd owns the display the screen stays parked until the request is removed or a stop is requested. */
  lemma {:induction false} OwnershipLastsUntilResume(s: State, es: seq<Event>)
    requires Inv(s) && s.powerd == Owner && s.request && EnabledRun(s, es) && Calm(s, es)
    requires forall i | 0 <= i < |es| :: es[i] != Resume
    ensures var f := Final(s, es); f.powerd == Owner && f.request && (f.screen == Parked || f.stop)
    decreases |es|
  {
    if es != [] {
      CalmStepKeepsInv(s, es[0]);
      OwnershipLastsUntilResume(Step(s, es[0]), es[1..]);
    }
  }

  // ----- the render surface -----

  /** The screen has the engine clear its off-screen render surface while powerd owns the display. */
  predicate Disturbs(s: State, e: Event) {
    e == ClearRender && s.powerd == Owner
  }

  predicate Quiet(s: State, es: seq<Event>)
    decreases |es|
  {
    es == [] || (!Disturbs(s, es[0]) && Quiet(Step(s, es[0]), es[1..]))
  }

  /** Without a stop request the screen leaves the engine alone altogether. */
  lemma {:induction false} CalmRunsAreQuiet(s: State, es: seq<Event>)
    requires Inv(s) && !s.stop && EnabledRun(s, es) && Calm(s, es)
    requires forall i | 0 <= i < |es| :: es[i] != StopRequested
    ensures Quiet(s, es)
    decreases |es|
  {
    hide Step, Enabled, Inv, Disturbs, GivesUp;
    if es != [] {
      CalmStepKeepsInv(s, es[0]);
      QuietStep(s, es[0]);
      CalmRunsAreQuiet(Step(s, es[0]), es[1..]);
    }
  }

  lemma {:induction false} QuietStep(s: State, e: Event)
    requires Inv(s) && !s.stop && Enabled(s, e) && e != StopRequested
    ensures !Disturbs(s, e) && !Step(s, e).stop
  {
  }

  /** A calm run without frames under ownership, but with a clear. */
  predicate Disturbed(s: State, es: seq<Event>) {
    EnabledRun(s, es) && Calm(s, es) && Clean(s, es) && !Quiet(s, es)
  }

  lemma {:induction false} DisturbedAfter(s: State, e: Event, es: seq<Event>)
    requires Enabled(s, e) && !GivesUp(s, e) && !Violates(s, e) && Disturbed(Step(s, e), es)
    ensures Disturbed(s, [e] + es)
  {
    hide Step, Enabled, GivesUp, Violates, Disturbs;
    assert ([e] + es)[1..] == es;
  }

  lemma {:induction false} DisturbedNow(s: State)
    requires s.powerd == Owner && s.screen == Body
    ensures Disturbed(s, [ClearRender])
  {
    assert [ClearRender][1..] == [];
  }

  /** A stop request under ownership makes the screen leave its parking loop and draw once more, off screen. */
  lemma {:induction false} StopDisturbs(s: State)
    requires Inv(s) && !s.stop && s.powerd == Owner
    ensures exists es :: es != [] && es[0] == StopRequested && Disturbed(s, es)
  {
    hide Disturbed;
    var t := Step(s, StopRequested);
    var rest := LeavingDisturbs(Step(t, PollRequest));
    DisturbedAfter(t, PollRequest, rest);
    DisturbedAfter(s, StopRequested, [PollRequest] + rest);
  }

  lemma {:induction false} LeavingDisturbs(s: State) returns (es: seq<Event>)
    requires s.powerd == Owner && s.screen == Leaving
    ensures Disturbed(s, es)
  {
    hide Disturbed;
    var t := Step(s, ClearPaused);
    DisturbedNow(Step(t, RemoveMarker));
    DisturbedAfter(t, RemoveMarker, [ClearRender]);
    es := [ClearPaused] + ([RemoveMarker] + [ClearRender]);
    DisturbedAfter(s, ClearPaused, [RemoveMarker] + [ClearRender]);
  }

  // ----- the condition is needed -----

  /** From `s` some run without stop requests or timeouts submits a frame under powerd's ownership. */
  ghost predicate CanViolate(s: State) {
    exists es :: Reaches(s, es)
  }

  predicate Reaches(s: State, es: seq<Event>) {
    && EnabledRun(s, es) && !Clean(s, es)
    && forall i | 0 <= i < |es| :: es[i] != StopRequested && es[i] != TimeOut
  }

  lemma {:induction false} ViolatesNow(s: State)
    requires s.powerd == Owner && s.screen == Body && !s.stop
    ensures CanViolate(s)
  {
    var es := [CheckStop, Present];
    assert es[1..] == [Present] && [Present][1..] == [];
    assert !Clean(Step(s, CheckStop), [Present]);
    assert Reaches(s, es);
  }

  lemma {:induction false} ViolatesAfter(s: State, e: Event)
    requires Enabled(s, e) && e != StopRequested && e != TimeOut && CanViolate(Step(s, e))
    ensures CanViolate(s)
  {
    hide Step, Enabled;
    var es :| Reaches(Step(s, e), es);
    assert ([e] + es)[1..] == es;
    assert Reaches(s, [e] + es);
  }

  /**
   A timeout during the acknowledgement of a screen that has not been stopped is exactly the
   fatal one: right after it some run without any further timeout or stop submits a frame under
   powerd's ownership, and after any other timeout no calm run does.
   */
  lemma {:induction false} TimeOutIsFatalIff(s: State)
    requires Inv(s) && Enabled(s, TimeOut)
    ensures GivesUp(s, TimeOut) ==> CanViolate(Step(s, TimeOut))
    ensures !GivesUp(s, TimeOut) ==>
      forall es | EnabledRun(Step(s, TimeOut), es) && Calm(Step(s, TimeOut), es) :: Clean(Step(s, TimeOut), es)
  {
    var t := Step(s, TimeOut);
    if GivesUp(s, TimeOut) {
      LateAcknowledgement(t);
    } else {
      CalmStepKeepsInv(s, TimeOut);
      forall es | EnabledRun(t, es) && Calm(t, es)
        ensures Clean(t, es)
      {
        CalmRunsAreClean(t, es);
      }
    }
  }

  /** The run: the late marker is taken for the answer to the next request. */
  lemma {:induction false} LateAcknowledgement(t: State)
    requires t.powerd == Idle && !t.request && !t.stop && Acknowledging(t)
    requires t.screen.Draining? || t.screen.Publishing? || t.screen.Body? || t.screen.Presenting? || t.screen.Top?
    ensures CanViolate(t)
    decreases match t.screen case Presenting => 4 case Body => 3 case Top => 2 case Draining => 1 case _ => 0
  {
    hide CanViolate;
    match t.screen
    case Presenting =>
      LateAcknowledgement(Step(t, Present));
      ViolatesAfter(t, Present);
    case Body =>
      LateAcknowledgement(Step(t, EndBody));
      ViolatesAfter(t, EndBody);
    case Top =>
      LateAcknowledgement(Step(t, CheckRequest));
      ViolatesAfter(t, CheckRequest);
    case Draining =>
      LateAcknowledgement(Step(t, Drained));
      ViolatesAfter(t, Drained);
    case Publishing => LatePublication(t);
  }

  lemma {:induction false} LatePublication(t: State)
    requires t.powerd == Idle && t.screen == Publishing && !t.request && !t.stop
    ensures CanViolate(t)
  {
    hide CanViolate, Step;
    var t1 := t.(powerd := Unlinked, marker := false);
    var t2 := t1.(screen := Parked, marker := true);
    var t3 := t2.(screen := Leaving);
    var t4 := t3.(powerd := Waiting, request := true);
    assert Step(t, UnlinkMarker) == t1 && Step(t1, PublishMarker) == t2 && Step(t2, PollRequest) == t3
           && Step(t3, CreateRequest) == t4 && Step(t4, PollMarker) == t4.(powerd := Owner) by { LatePath(t); }
    LeavingViolates(t4.(powerd := Owner));
    ViolatesAfter(t4, PollMarker);
    ViolatesAfter(t3, CreateRequest);
    ViolatesAfter(t2, PollRequest);
    ViolatesAfter(t1, PublishMarker);
    ViolatesAfter(t, UnlinkMarker);
  }

  lemma {:induction false} LatePath(t: State)
    requires !t.request && !t.stop
    ensures var t1 := t.(powerd := Unlinked, marker := false);
            var t2 := t1.(screen := Parked, marker := true);
            var t3 := t2.(screen := Leaving);
            var t4 := t3.(powerd := Waiting, request := true);
            && Step(t, UnlinkMarker) == t1 && Step(t1, PublishMarker) == t2 && Step(t2, PollRequest) == t3
            && Step(t3, CreateRequest) == t4 && Step(t4, PollMarker) == t4.(powerd := Owner)
  {
  }

  /** Without a stop, a screen that has left its parking loop submits frames, whoever owns the display. */
  lemma {:induction false} LeavingViolates(s: State)
    requires s.powerd == Owner && s.screen == Leaving && !s.stop
    ensures CanViolate(s)
  {
    hide CanViolate;
    var s1 := Step(s, ClearPaused);
    ViolatesNow(Step(s1, RemoveMarker));
    ViolatesAfter(s1, RemoveMarker);
    ViolatesAfter(s, ClearPaused);
  }
}
