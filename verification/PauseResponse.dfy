/**
 The response side of the ownership handshake: what the screen service's own steps lead to once
 powerd has asked for the display, given it back, or a stop has been requested.
 */
module PauseResponse {
  import opened PauseHandshake

  /** A step of the screen service. */
  predicate Own(e: Event) {
    match e
    case CheckRequest | Drained | DrainFailed | PublishMarker | PublishFailed | PollRequest => true
    case ClearPaused | RemoveMarker | ClearRender | CheckStop | Present | EndBody => true
    case _ => false
  }

  /** Only steps of the screen service, none of which fails. */
  predicate Smooth(es: seq<Event>) {
    forall i | 0 <= i < |es| :: Own(es[i]) && es[i] != DrainFailed && es[i] != PublishFailed
  }

  /** `es` is a smooth run of the screen from `s` to `t`. */
  predicate Leads(s: State, es: seq<Event>, t: State) {
    Smooth(es) && EnabledRun(s, es) && Final(s, es) == t
  }

  lemma {:induction false} LeadsNow(s: State)
    ensures Leads(s, [], s)
  {
  }

  lemma {:induction false} LeadsAfter(s: State, e: Event, es: seq<Event>, t: State)
    requires Enabled(s, e) && Own(e) && e != DrainFailed && e != PublishFailed && Leads(Step(s, e), es, t)
    ensures Leads(s, [e] + es, t)
  {
    hide Step, Enabled, Own;
    var all := [e] + es;
    assert all[1..] == es;
    forall i | 0 <= i < |all| ensures Own(all[i]) && all[i] != DrainFailed && all[i] != PublishFailed {
      assert i > 0 ==> all[i] == es[i - 1];
    }
  }

  lemma {:induction false} FinalAppend(s: State, es: seq<Event>, e: Event)
    requires EnabledRun(s, es) && Enabled(Final(s, es), e)
    ensures EnabledRun(s, es + [e]) && Final(s, es + [e]) == Step(Final(s, es), e)
    decreases |es|
  {
    hide Step, Enabled;
    var all := es + [e];
    if es == [] {
      assert all == [e] && all[1..] == [];
    } else {
      assert all[0] == es[0] && all[1..] == es[1..] + [e];
      FinalAppend(Step(s, es[0]), es[1..], e);
    }
  }

  // ----- a request is answered -----

  /** Steps to the parking loop. */
  function ToParking(screen: Screen): nat {
    match screen
    case Leaving => 6
    case Unmarking => 5
    case Presenting => 5
    case Body => 4
    case Top => 3
    case Draining => 2
    case Publishing => 1
    case _ => 0
  }

  /** The next step toward it. */
  function Onward(screen: Screen): Event {
    match screen
    case Leaving => ClearPaused
    case Unmarking => RemoveMarker
    case Presenting => Present
    case Body => EndBody
    case Top => CheckRequest
    case Draining => Drained
    case Publishing => PublishMarker
    case _ => PollRequest
  }

  /** Parked, but without a marker: the screen does not know that it is being asked again. */
  predicate Unheard(s: State) {
    s.screen == Parked && !s.marker
  }

  lemma {:induction false} OnwardStep(s: State)
    requires Inv(s) && s.powerd == Waiting && !s.stop && s.screen != Parked
    ensures var e, t := Onward(s.screen), Step(s, Onward(s.screen));
            && Enabled(s, e) && Own(e) && e != DrainFailed && e != PublishFailed
            && Inv(t) && t.powerd == Waiting && !t.stop && t.request && !Unheard(t)
            && ToParking(t.screen) < ToParking(s.screen)
  {
  }

  /** The screen's own steps lead to its parking loop with the marker published. */
  lemma {:induction false} ScreenParks(s: State) returns (es: seq<Event>, t: State)
    requires Inv(s) && s.powerd == Waiting && !s.stop && !Unheard(s)
    ensures Leads(s, es, t) && t.screen == Parked && t.marker && t.powerd == Waiting && t.request && !t.stop
    decreases ToParking(s.screen)
  {
    hide Leads, Own;
    if s.screen == Parked {
      es, t := [], s;
      LeadsNow(s);
      WaitingHasRequest(s);
    } else {
      hide Inv, Step, Enabled;
      OnwardStep(s);
      var e := Onward(s.screen);
      var rest, u := ScreenParks(Step(s, e));
      es, t := [e] + rest, u;
      LeadsAfter(s, e, rest, u);
    }
  }

  lemma {:induction false} WaitingHasRequest(s: State)
    requires Inv(s) && s.powerd == Waiting && !s.stop
    ensures s.request
  {
  }

  /** A smooth run of the screen and one poll give powerd the display. */
  ghost predicate Answered(s: State) {
    exists es, t :: Leads(s, es, t) && Enabled(t, PollMarker) && Step(t, PollMarker).powerd == Owner && t.screen == Parked
  }

  /** Whatever the screen does and however often powerd looks, an unheard request changes nothing. */
  lemma {:induction false} UnheardStays(s: State, es: seq<Event>)
    requires Unheard(s) && s.request && !s.stop && s.powerd == Waiting && EnabledRun(s, es)
    requires forall i | 0 <= i < |es| :: Own(es[i]) || es[i] == PollMarker
    ensures Final(s, es) == s
    decreases |es|
  {
    if es != [] {
      assert Step(s, es[0]) == s;
      UnheardStays(s, es[1..]);
    }
  }

  /** A waiting powerd is answered exactly when the screen is not parked without a marker. */
  lemma {:induction false} AnsweredIff(s: State)
    requires Inv(s) && s.powerd == Waiting && !s.stop
    ensures Answered(s) <==> !Unheard(s)
  {
    WaitingHasRequest(s);
    if Unheard(s) {
      forall es, t | Leads(s, es, t) ensures t == s {
        UnheardStays(s, es);
      }
    } else {
      var es, t := ScreenParks(s);
      assert Leads(s, es, t) && Step(t, PollMarker).powerd == Owner;
    }
  }

  /**
   A pause attempt from rest succeeds exactly when the screen has left its parking loop by the time
   the request is written: resuming and pausing again before the screen has looked is not noticed.
   */
  lemma {:induction false} PauseSucceedsIff(s: State)
    requires Inv(s) && s.powerd == Idle && !s.stop
    ensures var t := Step(Step(s, UnlinkMarker), CreateRequest);
            && Enabled(s, UnlinkMarker) && Enabled(Step(s, UnlinkMarker), CreateRequest)
            && (Answered(t) <==> s.screen != Parked)
  {
    hide Answered;
    CalmStepKeepsInv(s, UnlinkMarker);
    CalmStepKeepsInv(Step(s, UnlinkMarker), CreateRequest);
    AnsweredIff(Step(Step(s, UnlinkMarker), CreateRequest));
  }

  /** From the initial state a pause succeeds. */
  lemma {:induction false} InitAnswers()
    ensures Answered(Step(Step(Init, UnlinkMarker), CreateRequest))
  {
    hide Answered;
    InitIsCalm();
    PauseSucceedsIff(Init);
  }

  /** Pausing, resuming and pausing again at once leads to a request that is not heard. */
  lemma {:induction false} QuickPauseIsUnheard(s: State)
    requires Inv(s) && s.powerd == Owner && !s.stop
    ensures var es := [Resume, UnlinkMarker, CreateRequest];
            && EnabledRun(s, es) && Calm(s, es) && Inv(Final(s, es))
            && Final(s, es).powerd == Waiting && Unheard(Final(s, es)) && !Answered(Final(s, es))
  {
    hide Answered;
    var es := [Resume, UnlinkMarker, CreateRequest];
    var t1 := Step(s, Resume);
    var t2 := Step(t1, UnlinkMarker);
    assert es[1..] == [UnlinkMarker, CreateRequest] && es[1..][1..] == [CreateRequest] && [CreateRequest][1..] == [];
    assert Final(t2, [CreateRequest]) == Step(t2, CreateRequest) && EnabledRun(t2, [CreateRequest]) && Calm(t2, [CreateRequest]);
    assert Final(t1, es[1..]) == Step(t2, CreateRequest) && EnabledRun(t1, es[1..]) && Calm(t1, es[1..]);
    CalmRunsAreClean(s, es);
    AnsweredIff(Final(s, es));
  }

  // ----- the display is given back -----

  /** After the request is gone the screen leaves its parking loop, clears both flags and draws again. */
  lemma {:induction false} ResumeReturns(s: State)
    requires Inv(s) && s.powerd == Owner && !s.stop
    ensures exists es, t :: Leads(Step(s, Resume), es, t) &&
              t == State(Idle, Body, false, false, false, false)
  {
    hide Leads;
    var s1 := Step(s, Resume);
    var s2 := Step(s1, PollRequest);
    var s3 := Step(s2, ClearPaused);
    var s4 := Step(s3, RemoveMarker);
    LeadsNow(s4);
    LeadsAfter(s3, RemoveMarker, [], s4);
    LeadsAfter(s2, ClearPaused, [RemoveMarker] + [], s4);
    LeadsAfter(s1, PollRequest, [ClearPaused] + ([RemoveMarker] + []), s4);
  }

  /** A failed drain is tried again on the next round, as long as no stop is requested. */
  lemma {:induction false} DrainIsRetried(s: State)
    requires s.screen == Draining && s.paused && !s.stop
    ensures var es := [DrainFailed, EndBody, CheckRequest]; EnabledRun(s, es) && Final(s, es) == s
  {
    var es := [DrainFailed, EndBody, CheckRequest];
    var t1 := Step(s, DrainFailed);
    var t2 := Step(t1, EndBody);
    assert es[1..] == [EndBody, CheckRequest] && es[1..][1..] == [CheckRequest] && [CheckRequest][1..] == [];
    assert Final(t2, [CheckRequest]) == s && EnabledRun(t2, [CheckRequest]);
    assert Final(t1, es[1..]) == s && EnabledRun(t1, es[1..]);
  }

  /** A marker that could not be published leaves powerd unheard. */
  lemma {:induction false} FailedPublicationIsUnheard(s: State)
    requires Inv(s) && s.screen == Publishing && !s.stop
    ensures Enabled(s, PublishFailed) && Unheard(Step(s, PublishFailed)) && Inv(Step(s, PublishFailed))
  {
    CalmStepKeepsInv(s, PublishFailed);
  }

  /** Without a request or a stop the screen goes on presenting frames. */
  lemma {:induction false} FramesFlow(s: State)
    requires s.screen == Body && !s.paused && !s.request && !s.stop
    ensures var es := [CheckStop, Present, EndBody, CheckRequest]; EnabledRun(s, es) && Final(s, es) == s
  {
    var es := [CheckStop, Present, EndBody, CheckRequest];
    var t1 := Step(s, CheckStop);
    var t2 := Step(t1, Present);
    var t3 := Step(t2, EndBody);
    assert es[1..] == [Present, EndBody, CheckRequest] && es[1..][1..] == [EndBody, CheckRequest];
    assert [EndBody, CheckRequest][1..] == [CheckRequest] && [CheckRequest][1..] == [];
    assert Final(t3, [CheckRequest]) == s && EnabledRun(t3, [CheckRequest]);
    assert Final(t2, [EndBody, CheckRequest]) == s && EnabledRun(t2, [EndBody, CheckRequest]);
    assert Final(t1, es[1..]) == s && EnabledRun(t1, es[1..]);
  }

  // ----- a stop ends the loop -----

  function ToExit(screen: Screen): nat {
    match screen
    case Draining => 7
    case Publishing => 6
    case Parked => 5
    case Leaving => 4
    case Unmarking => 3
    case Presenting => 3
    case Body => 2
    case Top => 1
    case Exited => 0
  }

  lemma {:induction false} StopStep(s: State)
    requires s.stop && s.screen != Exited
    ensures var e, t := Onward(s.screen), Step(s, Onward(s.screen));
            && Enabled(s, e) && Own(e) && e != DrainFailed && e != PublishFailed
            && t.stop && t.powerd == s.powerd && ToExit(t.screen) < ToExit(s.screen)
  {
  }

  /** After a stop request the screen's own steps lead out of the loop from wherever it is. */
  lemma {:induction false} StopExits(s: State) returns (es: seq<Event>, t: State)
    requires s.stop
    ensures Leads(s, es, t) && t.screen == Exited
    decreases ToExit(s.screen)
  {
    hide Leads, Own;
    if s.screen == Exited {
      es, t := [], s;
      LeadsNow(s);
    } else {
      hide Step, Enabled;
      StopStep(s);
      var e := Onward(s.screen);
      var rest, u := StopExits(Step(s, e));
      es, t := [e] + rest, u;
      LeadsAfter(s, e, rest, u);
    }
  }
}
