/**
 The DMA ring of audio/hc15xx_audio.c. Producer and consumer share two cursors in
 16-byte units and no full flag, so the driver holds 64 bytes back from a full ring and
 publishes them once the consumer has moved.
 */
module AudioRing {
  import opened CArithmetic

  const RING_GUARD := 64
  const GUARD_UNITS := 4
  const MAX_UNITS := 0xffff

  /**
   A ring of `16 * units` bytes. `target` and `published` are the driver's fields,
   `producer` and `consumer` the two halves of register 0x38, all in units; `running`
   is bit 16 of register 0x04.
   */
  datatype Ring = Ring(units: int, target: int, published: int, producer: int, consumer: int, running: bool)
  {
    /** What the engine takes to be playable: it knows the two cursors only. */
    function Playable(): int
      requires units > 0
    {
      (producer - consumer) % units
    }
  }

  /** The state `hc15xx_audio_configure_ring` leaves for a ring it accepts. */
  function Configured(units: int, running: bool): Ring {
    Ring(units, 0, 0, 0, 0, running)
  }

  /** `hc15xx_audio_service_ring`. */
  function Service(r: Ring): Ring {
    var s := if r.published != r.target && r.consumer != r.target
             then r.(published := r.target, producer := r.target)
             else r;
    if s.published != s.consumer then s.(running := true) else s
  }

  /** The byte offset `hc15xx_audio_set_target` publishes for a byte offset in the ring. */
  function PublishOffset(bytes: int, consumer: int, offset: int, pending: bool): int
    requires bytes > 0
  {
    if pending && offset == consumer then Wrap32(offset + bytes - RING_GUARD) % bytes else offset
  }

  /** `hc15xx_audio_set_target`. */
  function SetTarget(r: Ring, byteOffset: int, pending: bool): Ring
    requires r.units > 0
  {
    var offset := byteOffset % (16 * r.units);
    var published := PublishOffset(16 * r.units, 16 * r.consumer, offset, pending) / 16;
    Service(r.(target := offset / 16, published := published, producer := published))
  }

  /** The engine plays `n` units. */
  function Play(r: Ring, n: int): Ring
    requires r.units > 0
  {
    r.(consumer := (r.consumer + n) % r.units)
  }

  // ----- runs, with absolute counters -----

  /** Units submitted by the caller, published to the engine, and played. */
  datatype Counts = Counts(submitted: int, published: int, played: int)

  datatype Event =
    | Submit(n: nat)     // the caller adds `n` units and calls set_target
    | ServiceCall        // interrupt or poll
    | Played(n: nat)     // the DMA engine advances
    | Underrun           // the DMA engine clears its run bit

  /** What can happen next: submissions fit the ring, the engine plays what it can see. */
  predicate Enabled(r: Ring, c: Counts, e: Event)
    requires r.units > 0
  {
    match e
    case Submit(n) => c.submitted + n - c.played <= r.units
    case Played(n) => r.running && n <= r.Playable()
    case _ => true
  }

  function Step(r: Ring, c: Counts, e: Event): (t: (Ring, Counts))
    requires r.units > 0
    ensures t.0.units == r.units
  {
    match e
    case Submit(n) =>
      var s := c.submitted + n;
      var t := SetTarget(r, 16 * (s % r.units), s != c.played);
      (t, Counts(s, if t.published == t.target then s else s - GUARD_UNITS, c.played))
    case ServiceCall =>
      var t := Service(r);
      (t, c.(published := if t.published == t.target then c.submitted else c.published))
    case Played(n) => (Play(r, n), c.(played := c.played + n))
    case Underrun => (r.(running := false), c)
  }

  /** How the cursors represent the counters. */
  predicate Linked(r: Ring, c: Counts) {
    && GUARD_UNITS < r.units <= MAX_UNITS
    && 0 <= c.played <= c.published <= c.submitted <= c.played + r.units
    && r.target == c.submitted % r.units
    && r.published == r.producer == c.published % r.units
    && r.consumer == c.played % r.units
    && ((c.published == c.submitted && c.submitted - c.played < r.units) ||
        c.published == c.submitted - GUARD_UNITS)
  }

  /** Nothing submitted is stranded: there is something playable and the engine runs. */
  predicate Serviced(r: Ring, c: Counts) {
    c.submitted > c.played ==> r.producer != r.consumer && r.running
  }

  // ----- cursor arithmetic -----

  /** Two counts less than a ring apart meet on the ring only when they are equal. */
  lemma {:induction false} SameCursor(units: int, a: int, b: int)
    requires units > 0 && a <= b < a + units
    ensures a % units == b % units <==> a == b
    ensures (b % units - a % units) % units == b - a
  {
    var q, r := a / units, a % units;
    var d := b - a;
    if r + d < units {
      assert b == q * units + (r + d);
      DivModUnique(b, units, q, r + d);
      DivModUnique(d, units, 0, d);
    } else {
      assert b == (q + 1) * units + (r + d - units);
      DivModUnique(b, units, q + 1, r + d - units);
      assert b % units - a % units == -1 * units + d;
      DivModUnique(b % units - a % units, units, -1, d);
    }
  }

  lemma {:induction false} FullCursor(units: int, a: int)
    requires units > 0
    ensures (a + units) % units == a % units
  {
    DivModUnique(a + units, units, a / units + 1, a % units);
  }

  lemma {:induction false} AdvanceCursor(units: int, a: int, n: nat)
    requires units > 0
    ensures (a % units + n) % units == (a + n) % units
  {
    var q, r := a / units, a % units;
    var p, s := (r + n) / units, (r + n) % units;
    assert (q + p) * units == q * units + p * units;
    DivModUnique(a + n, units, q + p, s);
  }

  /** On a full ring of more than 64 bytes the published cursor is the guard behind the target. */
  lemma {:induction false} PublishedGuard(units: int, s: int)
    requires GUARD_UNITS < units <= MAX_UNITS
    ensures var k := s % units;
            PublishOffset(16 * units, 16 * k, 16 * k, true) / 16 == (s - GUARD_UNITS) % units
  {
    var k, q := s % units, s / units;
    var bytes := 16 * units;
    if k >= GUARD_UNITS {
      DivModUnique(16 * k + bytes - RING_GUARD, bytes, 1, 16 * k - RING_GUARD);
      DivModUnique(s - GUARD_UNITS, units, q, k - GUARD_UNITS);
    } else {
      DivModUnique(16 * k + bytes - RING_GUARD, bytes, 0, 16 * k + bytes - RING_GUARD);
      assert s - GUARD_UNITS == (q - 1) * units + (k + units - GUARD_UNITS);
      DivModUnique(s - GUARD_UNITS, units, q - 1, k + units - GUARD_UNITS);
    }
  }

  // ----- one step -----

  lemma {:induction false} ServiceKeepsLinked(r: Ring, c: Counts)
    requires Linked(r, c)
    ensures var d := Step(r, c, ServiceCall);
            && Linked(d.0, d.1) && Serviced(d.0, d.1)
            && d.1.submitted == c.submitted && d.1.played == c.played
            && (c.submitted - c.played < r.units ==> d.1.published == c.submitted)
  {
    var units := r.units;
    if c.published == c.submitted {
      SameCursor(units, c.played, c.submitted);
    } else {
      SameCursor(units, c.published, c.submitted);
      SameCursor(units, c.played, c.published);
      if c.submitted == c.played + units {
        FullCursor(units, c.played);
      } else {
        SameCursor(units, c.played, c.submitted);
      }
    }
  }

  /** What `set_target` hands to its closing service call. */
  lemma {:induction false} SubmitPublishes(r: Ring, c: Counts, n: nat)
    requires Linked(r, c) && c.submitted + n - c.played <= r.units
    ensures var s := c.submitted + n;
            var p := if s == c.played + r.units then s - GUARD_UNITS else s;
            var mid := r.(target := s % r.units, published := p % r.units, producer := p % r.units);
            Linked(mid, Counts(s, p, c.played)) && SetTarget(r, 16 * (s % r.units), s != c.played) == Service(mid)
  {
    hide Service;
    var units := r.units;
    var s := c.submitted + n;
    var k := s % units;
    DivModUnique(16 * k, 16 * units, 0, 16 * k);
    if s == c.played + units {
      FullCursor(units, c.played);
      PublishedGuard(units, s);
    } else {
      SameCursor(units, c.played, s);
    }
  }

  lemma {:induction false} SubmitKeepsLinked(r: Ring, c: Counts, n: nat)
    requires r.units > 0 && Linked(r, c) && Enabled(r, c, Submit(n))
    ensures var d := Step(r, c, Submit(n));
            Linked(d.0, d.1) && Serviced(d.0, d.1)
  {
    hide Linked, Service, SetTarget, Serviced;
    SubmitPublishes(r, c, n);
    var s := c.submitted + n;
    var p := if s == c.played + r.units then s - GUARD_UNITS else s;
    var mid := r.(target := s % r.units, published := p % r.units, producer := p % r.units);
    var d := Counts(s, p, c.played);
    ServiceKeepsLinked(mid, d);
    FullStaysGuarded(mid, d);
  }

  /** A service call leaves a full ring guarded and publishes all of any other. */
  lemma {:induction false} FullStaysGuarded(r: Ring, c: Counts)
    requires Linked(r, c)
    ensures var t := Service(r);
            Step(r, c, ServiceCall).1.published ==
            if t.published == t.target then c.submitted else c.submitted - GUARD_UNITS
  {
    SameCursor(r.units, c.published, c.submitted);
  }

  lemma {:induction false} PlayKeepsLinked(r: Ring, c: Counts, n: nat)
    requires Linked(r, c)
    ensures r.Playable() == c.published - c.played
    ensures n <= r.Playable() ==> Linked(Play(r, n), c.(played := c.played + n))
  {
    SameCursor(r.units, c.played, c.published);
    AdvanceCursor(r.units, c.played, n);
  }

  lemma {:induction false} StepKeepsLinked(r: Ring, c: Counts, e: Event)
    requires Linked(r, c) && Enabled(r, c, e)
    ensures var d := Step(r, c, e);
            Linked(d.0, d.1) && (e.Submit? || e.ServiceCall? ==> Serviced(d.0, d.1))
  {
    hide Service, SetTarget;
    match e
    case Submit(n) => SubmitKeepsLinked(r, c, n);
    case ServiceCall => ServiceKeepsLinked(r, c);
    case Played(n) => PlayKeepsLinked(r, c, n);
    case Underrun =>
  }

  // ----- whole runs -----

  /** Every event of the run can happen when its turn comes. */
  predicate EnabledRun(r: Ring, c: Counts, es: seq<Event>)
    requires r.units > 0
    decreases |es|
  {
    es == [] ||
    (Enabled(r, c, es[0]) && EnabledRun(Step(r, c, es[0]).0, Step(r, c, es[0]).1, es[1..]))
  }

  /** The state after a run. */
  function Final(r: Ring, c: Counts, es: seq<Event>): (t: (Ring, Counts))
    requires r.units > 0
    ensures t.0.units == r.units
    decreases |es|
  {
    if es == [] then (r, c) else Final(Step(r, c, es[0]).0, Step(r, c, es[0]).1, es[1..])
  }

  /** The engine only sees submitted data, and a full ring never looks empty. */
  predicate Safe(r: Ring, c: Counts)
    requires r.units > 0
  {
    && r.Playable() == c.published - c.played <= c.submitted - c.played
    && (c.submitted - c.played == r.units ==> r.producer != r.consumer)
  }

  lemma {:induction false} LinkedIsSafe(r: Ring, c: Counts)
    requires Linked(r, c)
    ensures Safe(r, c)
  {
    SameCursor(r.units, c.played, c.published);
  }

  /** The driver starts the engine only when there is something to play. */
  lemma {:induction false} StartsOnlyWithData(r: Ring, c: Counts, e: Event)
    requires Linked(r, c) && Enabled(r, c, e)
    ensures var d := Step(r, c, e);
            d.0.running && !r.running ==> d.0.producer != d.0.consumer && d.1.published > d.1.played
  {
    StepKeepsLinked(r, c, e);
    var d := Step(r, c, e);
    LinkedPlayable(d.0, d.1);
  }

  lemma {:induction false} LinkedPlayable(r: Ring, c: Counts)
    requires Linked(r, c)
    ensures r.producer == r.published && (r.producer != r.consumer ==> c.published > c.played)
  {
  }

  /**
   Every run of submissions, service calls, playback and underruns is safe, and right
   after a submission or a service call nothing submitted is stranded.
   */
  lemma {:induction false} RunsAreSafe(r: Ring, c: Counts, es: seq<Event>)
    requires Linked(r, c) && EnabledRun(r, c, es)
    ensures var f := Final(r, c, es);
            && Linked(f.0, f.1) && Safe(f.0, f.1)
            && (es != [] && (es[|es| - 1].Submit? || es[|es| - 1].ServiceCall?) ==> Serviced(f.0, f.1))
    decreases |es|
  {
    hide Step, Safe, Serviced, Enabled;
    if es == [] {
      LinkedIsSafe(r, c);
    } else {
      StepKeepsLinked(r, c, es[0]);
      var d := Step(r, c, es[0]);
      RunsAreSafe(d.0, d.1, es[1..]);
      if |es| == 1 {
        assert Final(d.0, d.1, es[1..]) == d;
      } else {
        assert es[1..][|es[1..]| - 1] == es[|es| - 1];
      }
    }
  }

  /** A configured ring of more than 64 bytes starts such a run, empty. */
  lemma {:induction false} ConfigureStartsRun(units: int, running: bool)
    requires GUARD_UNITS < units <= MAX_UNITS
    ensures Linked(Configured(units, running), Counts(0, 0, 0))
  {
    DivModUnique(0, units, 0, 0);
  }

  /** The engine plays everything it can see. */
  function Drain(r: Ring, c: Counts): (t: (Ring, Counts))
    requires r.units > 0
    ensures t.0.units == r.units
  {
    (Play(r, r.Playable()), c.(played := c.played + r.Playable()))
  }

  /** Service, play, service, play: everything submitted has been played, the held-back tail included. */
  lemma {:induction false} TwoServicesDrain(r: Ring, c: Counts)
    requires Linked(r, c)
    ensures var a := Step(r, c, ServiceCall);
            var b := Drain(a.0, a.1);
            var d := Step(b.0, b.1, ServiceCall);
            var f := Drain(d.0, d.1);
            f.1.played == f.1.submitted == c.submitted && Linked(f.0, f.1)
  {
    hide Step, Play, Linked;
    ServiceKeepsLinked(r, c);
    var a := Step(r, c, ServiceCall);
    DrainKeepsLinked(a.0, a.1);
    var b := Drain(a.0, a.1);
    ServiceKeepsLinked(b.0, b.1);
    var d := Step(b.0, b.1, ServiceCall);
    DrainKeepsLinked(d.0, d.1);
  }

  lemma {:induction false} DrainKeepsLinked(r: Ring, c: Counts)
    requires Linked(r, c)
    ensures var d := Drain(r, c);
            && Linked(d.0, d.1) && d.1.submitted == c.submitted && d.1.played == c.published
            && d.1.submitted - d.1.played < r.units
  {
    PlayKeepsLinked(r, c, 0);
    PlayKeepsLinked(r, c, r.Playable());
  }

  /**
   When a full ring is published as anything but an empty one: always above 64 bytes, never
   at 16, 32 and 64, and at 48 bytes only away from offset 0, where the subtraction of the
   guard wraps around 2^32.
   */
  lemma {:induction false} GuardWorksIff(units: int, k: int)
    requires 0 < units <= MAX_UNITS && 0 <= k < units
    ensures PublishOffset(16 * units, 16 * k, 16 * k, true) / 16 != k <==>
            units > GUARD_UNITS || (units == 3 && k > 0)
  {
    hide PublishOffset;
    if units > GUARD_UNITS {
      DivModUnique(k, units, 0, k);
      PublishedGuard(units, k);
      SameCursor(units, k - GUARD_UNITS, k);
    } else {
      SmallRing(units, k);
    }
  }

  lemma {:induction false} SmallRing(units: int, k: int)
    requires 1 <= units <= 4 && 0 <= k < units
    ensures PublishOffset(16 * units, 16 * k, 16 * k, true) / 16 == if units == 3 && k > 0 then k - 1 else k
  {
    var w := Wrap32(16 * k + 16 * units - RING_GUARD);
    if units == 3 && k == 0 {
      assert w == U32 - 16;
      DivModUnique(w, 48, 89478485, 0);
    } else if units == 3 {
      DivModUnique(w, 48, 0, 16 * k - 16);
    }
  }
}
