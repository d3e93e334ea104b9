/**
 The cache with invalidations against least-recently-used replacement. The search stops at the
 first invalid way, so a line behind one is missed although it is held.
 */
module CacheHoles {
  import opened CArithmetic
  import opened CacheModel

  // ----- the reference -----

  /** Number of accesses in a run. */
  function Accesses(ops: seq<Op>): (n: nat)
    ensures n <= |ops|
    decreases |ops|
  {
    if ops == [] then 0
    else Accesses(ops[..|ops| - 1]) + (if ops[|ops| - 1].Touch? then 1 else 0)
  }

  /** A tag whose time is the smallest. */
  ghost function Eldest(m: map<nat, nat>): (tag: nat)
    requires m != map[]
    ensures tag in m && forall other | other in m :: m[tag] <= m[other]
  {
    EldestExists(m, m.Keys);
    var tag :| tag in m && forall other | other in m :: m[tag] <= m[other];
    tag
  }

  lemma {:induction false} EldestExists(m: map<nat, nat>, keys: set<nat>)
    requires keys != {} && keys <= m.Keys
    ensures exists tag :: tag in keys && forall other | other in keys :: m[tag] <= m[other]
    decreases keys
  {
    var k :| k in keys;
    if keys != {k} {
      var rest := keys - {k};
      assert rest != {} by {
        assert keys == rest + {k};
      }
      EldestExists(m, rest);
      var tag :| tag in rest && forall other | other in rest :: m[tag] <= m[other];
      var best := if m[k] <= m[tag] then k else tag;
      assert best in keys && forall other | other in keys :: m[best] <= m[other];
    } else {
      assert forall other | other in keys :: m[k] <= m[other];
    }
  }

  /**
   The lines of set `s` that a cache with least-recently-used replacement holds, each with the
   time of its last access: an access makes room by giving up the eldest line of a full set, an
   invalidation removes its line.
   */
  ghost function Lru(ops: seq<Op>, s: nat, ways: nat): map<nat, nat>
    decreases |ops|
  {
    if ops == [] then map[]
    else
      var m := Lru(ops[..|ops| - 1], s, ways);
      var op := ops[|ops| - 1];
      if op.line.set_ != s then m
      else LruStep(m, op, ways, Accesses(ops))
  }

  ghost function LruStep(m: map<nat, nat>, op: Op, ways: nat, time: nat): map<nat, nat> {
    match op
    case Touch(l) =>
      if l.tag in m || |m| < ways || m == map[] then m[l.tag := time]
      else (m - {Eldest(m)})[l.tag := time]
    case Drop(l) => m - {l.tag}
  }

  // ----- rows and the reference -----

  /** The valid ways hold exactly the lines of the reference, with their times as ages. */
  ghost predicate Same(row: seq<Entry>, m: map<nat, nat>, now: nat) {
    && (forall w | 0 <= w < |row| && row[w].valid :: row[w].tag in m && m[row[w].tag] == row[w].age)
    && (forall tag | tag in m :: Resident(row, tag))
    && (forall w, v | 0 <= w < v < |row| && row[w].valid && row[v].valid :: row[w].tag != row[v].tag)
    && (forall a, b | a in m && b in m && a != b :: m[a] != m[b])
    && forall a | a in m :: m[a] <= now
  }

  /** The tags of the valid ways among the first `n`. */
  ghost function Tags(row: seq<Entry>, n: nat): set<nat>
    requires n <= |row|
  {
    set w | 0 <= w < n && row[w].valid :: row[w].tag
  }

  lemma {:induction false} TagCount(row: seq<Entry>, n: nat)
    requires n <= |row|
    requires forall w, v | 0 <= w < v < |row| && row[w].valid && row[v].valid :: row[w].tag != row[v].tag
    ensures |Tags(row, n)| <= n && (|Tags(row, n)| == n <==> forall w | 0 <= w < n :: row[w].valid)
  {
    if n > 0 {
      TagCount(row, n - 1);
      if row[n - 1].valid {
        assert row[n - 1].tag !in Tags(row, n - 1);
        assert Tags(row, n) == Tags(row, n - 1) + {row[n - 1].tag};
      } else {
        assert Tags(row, n) == Tags(row, n - 1);
      }
    }
  }

  lemma {:induction false} SameCount(row: seq<Entry>, m: map<nat, nat>, now: nat)
    requires Same(row, m, now)
    ensures |m| <= |row| && (|m| == |row| <==> forall w | 0 <= w < |row| :: row[w].valid)
  {
    TagCount(row, |row|);
    assert m.Keys == Tags(row, |row|);
    assert |m| == |m.Keys|;
  }

  /** The line is held, but an invalid way stands before it. */
  ghost predicate Hidden(row: seq<Entry>, tag: nat) {
    Resident(row, tag) && !Reachable(row, tag)
  }

  lemma {:induction false} SameHit(row: seq<Entry>, m: map<nat, nat>, now: nat, tag: nat)
    requires Same(row, m, now) && row != [] && now <= AGE_MAX
    ensures Scan(row, tag, 0, 0, AGE_MAX).Hit? <==> tag in m && !Hidden(row, tag)
  {
    hide Scan;
    ScanHitsIff(row, tag);
  }

  /** An access that is not hidden does what the reference does. */
  lemma {:induction false} TouchSame(row: seq<Entry>, m: map<nat, nat>, now: nat, l: Line)
    requires Same(row, m, now) && row != [] && now < AGE_MAX && !Hidden(row, l.tag)
    ensures Same(row[Scan(row, l.tag, 0, 0, AGE_MAX).way := Entry(true, l.tag, now + 1)],
                 LruStep(m, Touch(l), |row|, now + 1), now + 1)
  {
    hide Scan;
    ScanOutcome(row, l.tag, 0, 0, AGE_MAX);
    ScanHitsIff(row, l.tag);
    SameCount(row, m, now);
    var w := Scan(row, l.tag, 0, 0, AGE_MAX).way;
    if l.tag in m {
      assert row[w].valid && row[w].tag == l.tag;
      Restamped(row, m, now, l.tag, w);
    } else if !row[w].valid {
      Added(row, m, now, l.tag, w);
    } else {
      assert row[w].tag in m && m[row[w].tag] == row[w].age;
      EldestIs(row, m, now, w);
      Replaced(row, m, now, l.tag, w);
    }
  }

  lemma {:induction false} EldestIs(row: seq<Entry>, m: map<nat, nat>, now: nat, w: nat)
    requires Same(row, m, now) && w < |row| && m != map[]
    requires forall v | 0 <= v < |row| :: row[v].valid && row[w].age <= row[v].age
    ensures Eldest(m) == row[w].tag
  {
    var tag := Eldest(m);
    var v :| 0 <= v < |row| && row[v].valid && row[v].tag == tag;
    assert m[tag] == row[v].age && m[row[w].tag] == row[w].age;
  }

  lemma {:induction false} Restamped(row: seq<Entry>, m: map<nat, nat>, now: nat, tag: nat, w: nat)
    requires Same(row, m, now) && w < |row| && row[w].valid && row[w].tag == tag
    ensures Same(row[w := Entry(true, tag, now + 1)], m[tag := now + 1], now + 1)
  {
    var next := row[w := Entry(true, tag, now + 1)];
    KeepsOthers(row, next, w);
    assert next[w].valid && next[w].tag == tag;
  }

  lemma {:induction false} Added(row: seq<Entry>, m: map<nat, nat>, now: nat, tag: nat, w: nat)
    requires Same(row, m, now) && w < |row| && !row[w].valid && tag !in m
    ensures Same(row[w := Entry(true, tag, now + 1)], m[tag := now + 1], now + 1)
  {
    var next := row[w := Entry(true, tag, now + 1)];
    KeepsOthers(row, next, w);
    assert next[w].valid && next[w].tag == tag;
  }

  lemma {:induction false} Replaced(row: seq<Entry>, m: map<nat, nat>, now: nat, tag: nat, w: nat)
    requires Same(row, m, now) && w < |row| && row[w].valid && tag !in m
    ensures Same(row[w := Entry(true, tag, now + 1)], (m - {row[w].tag})[tag := now + 1], now + 1)
  {
    var next := row[w := Entry(true, tag, now + 1)];
    KeepsOthers(row, next, w);
    assert next[w].valid && next[w].tag == tag;
  }

  /** Lines in the other ways stay. */
  lemma {:induction false} KeepsOthers(row: seq<Entry>, next: seq<Entry>, w: nat)
    requires |next| == |row| && w < |row| && forall v | 0 <= v < |row| && v != w :: next[v] == row[v]
    ensures forall tag | Resident(row, tag) && !(row[w].valid && row[w].tag == tag) :: Resident(next, tag)
  {
    forall tag | Resident(row, tag) && !(row[w].valid && row[w].tag == tag) ensures Resident(next, tag) {
      var v :| 0 <= v < |row| && row[v].valid && row[v].tag == tag;
      assert next[v].valid && next[v].tag == tag;
    }
  }

  lemma {:induction false} DropSame(row: seq<Entry>, next: seq<Entry>, m: map<nat, nat>, now: nat, tag: nat)
    requires Same(row, m, now) && |next| == |row|
    requires forall w | 0 <= w < |row| ::
      next[w] == if row[w].valid && row[w].tag == tag then row[w].(valid := false, age := 0) else row[w]
    ensures Same(next, m - {tag}, now)
  {
    forall other | other in m - {tag} ensures Resident(next, other) {
      var w :| 0 <= w < |row| && row[w].valid && row[w].tag == other;
      assert next[w] == row[w];
    }
  }

  // ----- runs -----

  /** The access finds its line behind an invalid way. */
  ghost predicate HiddenNow(sets: nat, ways: nat, ops: seq<Op>, l: Line)
    requires sets > 0 && ways > 0 && OpsIn(ops, sets) && l.set_ < sets
  {
    Hidden(Row(After(sets, ways, ops), l.set_), l.tag)
  }

  /** No access of the run does. */
  ghost predicate NoneHidden(sets: nat, ways: nat, ops: seq<Op>)
    requires sets > 0 && ways > 0 && OpsIn(ops, sets)
    decreases |ops|
  {
    ops == [] ||
    (NoneHidden(sets, ways, ops[..|ops| - 1]) &&
     (ops[|ops| - 1].Touch? ==> !HiddenNow(sets, ways, ops[..|ops| - 1], ops[|ops| - 1].line)))
  }

  /** Every access of the run hits exactly when the reference holds its line. */
  ghost predicate HitsAgree(sets: nat, ways: nat, ops: seq<Op>)
    requires sets > 0 && ways > 0 && OpsIn(ops, sets)
    decreases |ops|
  {
    ops == [] ||
    (HitsAgree(sets, ways, ops[..|ops| - 1]) &&
     (ops[|ops| - 1].Touch? ==> AgreesNow(sets, ways, ops[..|ops| - 1], ops[|ops| - 1].line)))
  }

  ghost predicate AgreesNow(sets: nat, ways: nat, ops: seq<Op>, l: Line)
    requires sets > 0 && ways > 0 && OpsIn(ops, sets) && l.set_ < sets
  {
    Hits(After(sets, ways, ops), l) <==> l.tag in Lru(ops, l.set_, ways)
  }

  /** As long as no access is hidden, every set holds what the reference holds. */
  lemma {:induction false} RunsMatchLru(sets: nat, ways: nat, ops: seq<Op>, s: nat)
    requires sets > 0 && ways > 0 && OpsIn(ops, sets) && s < sets
    requires Accesses(ops) < U32 && NoneHidden(sets, ways, ops)
    ensures After(sets, ways, ops).tick == Accesses(ops)
    ensures Same(Row(After(sets, ways, ops), s), Lru(ops, s, ways), Accesses(ops))
    decreases |ops|
  {
    hide Row, Access, Invalidate, Same, Hidden, LruStep;
    if ops == [] {
      EmptyRow(sets, ways, s);
      EmptySame(Row(Empty(sets, ways), s));
    } else {
      var n := |ops| - 1;
      RunsMatchLru(sets, ways, ops[..n], s);
      ApplySame(After(sets, ways, ops[..n]), ops[n], s, Lru(ops[..n], s, ways), Accesses(ops[..n]));
    }
  }

  lemma {:induction false} EmptySame(row: seq<Entry>)
    requires forall w | 0 <= w < |row| :: !row[w].valid
    ensures Same(row, map[], 0)
  {
  }

  lemma {:induction false} ApplySame(c: Cache, op: Op, s: nat, m: map<nat, nat>, now: nat)
    requires c.Valid() && op.line.set_ < c.sets && s < c.sets && c.tick == now
    requires Same(Row(c, s), m, now) && now + (if op.Touch? then 1 else 0) < U32
    requires op.Touch? && op.line.set_ == s ==> !Hidden(Row(c, s), op.line.tag)
    ensures var later := now + (if op.Touch? then 1 else 0);
            && Apply(c, op).tick == later
            && Same(Row(Apply(c, op), s), if op.line.set_ == s then LruStep(m, op, c.ways, later) else m, later)
  {
    hide Row, Scan, Ticked, Hidden, Same;
    var l := op.line;
    var row := Row(c, s);
    match op
    case Touch(_) =>
      AccessRows(c, l, s);
      if l.set_ == s {
        TouchSame(row, m, now, l);
      } else {
        SameLater(row, m, now);
      }
    case Drop(_) =>
      var next := Row(Invalidate(c, l), s);
      forall w | 0 <= w < |row|
        ensures next[w] == if s == l.set_ && row[w].valid && row[w].tag == l.tag
                           then row[w].(valid := false, age := 0) else row[w]
      {
        InvalidateRow(c, l, s, w);
      }
      if l.set_ == s {
        DropSame(row, next, m, now, l.tag);
      } else {
        assert next == row;
      }
  }

  lemma {:induction false} SameLater(row: seq<Entry>, m: map<nat, nat>, now: nat)
    requires Same(row, m, now)
    ensures Same(row, m, now + 1)
  {
  }

  /** While the sets match, an access agrees with the reference exactly when it is not hidden. */
  lemma {:induction false} AgreesIffNotHidden(sets: nat, ways: nat, ops: seq<Op>, l: Line)
    requires sets > 0 && ways > 0 && OpsIn(ops, sets) && l.set_ < sets
    requires Accesses(ops) < U32 && NoneHidden(sets, ways, ops)
    ensures AgreesNow(sets, ways, ops, l) <==> !HiddenNow(sets, ways, ops, l)
  {
    hide Row, Scan, Ticked, After, Lru, NoneHidden;
    RunsMatchLru(sets, ways, ops, l.set_);
    var c := After(sets, ways, ops);
    AccessRows(c, l, l.set_);
    SameHit(Row(c, l.set_), Lru(ops, l.set_, ways), Accesses(ops), l.tag);
  }

  /**
   With invalidations the cache is least-recently-used exactly up to the first access whose line
   lies behind an invalid way: all hits of a run agree with the reference if and only if there is
   no such access.
   */
  lemma {:induction false} HitsAgreeIff(sets: nat, ways: nat, ops: seq<Op>)
    requires sets > 0 && ways > 0 && OpsIn(ops, sets) && Accesses(ops) <= U32
    ensures HitsAgree(sets, ways, ops) <==> NoneHidden(sets, ways, ops)
    decreases |ops|
  {
    hide AgreesNow, HiddenNow;
    if ops != [] {
      var n := |ops| - 1;
      HitsAgreeIff(sets, ways, ops[..n]);
      if NoneHidden(sets, ways, ops[..n]) && ops[n].Touch? {
        AgreesIffNotHidden(sets, ways, ops[..n], ops[n].line);
      }
    }
  }

  // ----- such accesses exist -----

  /** The smallest one: the line behind the hole misses right after its own access. */
  lemma {:induction false} HoleHidesLine()
    ensures var a := Line(0, 0); var b := Line(0, 1);
            !Hits(After(1, 2, [Touch(a), Touch(b), Drop(a)]), b)
  {
    hide Access, Invalidate, Row, Scan, Ticked, Empty;
    var a := Line(0, 0);
    var b := Line(0, 1);
    var ops := [Touch(a), Touch(b), Drop(a)];
    HoleSteps();
    AfterOne(1, 2, [], Touch(a));
    AfterOne(1, 2, [Touch(a)], Touch(b));
    AfterOne(1, 2, [Touch(a), Touch(b)], Drop(a));
    assert [] + [Touch(a)] == [Touch(a)] && [Touch(a)] + [Touch(b)] == ops[..2] && ops[..2] + [Drop(a)] == ops;
    assert ops[..2] == [Touch(a), Touch(b)];
  }

  lemma {:induction false} HoleSteps()
    ensures Access(Empty(1, 2), Line(0, 0)) == Cache(1, 2, [Entry(true, 0, 1), Entry(false, 0, 0)], 1)
    ensures Access(Cache(1, 2, [Entry(true, 0, 1), Entry(false, 0, 0)], 1), Line(0, 1)) ==
            Cache(1, 2, [Entry(true, 0, 1), Entry(true, 1, 2)], 2)
    ensures Invalidate(Cache(1, 2, [Entry(true, 0, 1), Entry(true, 1, 2)], 2), Line(0, 0)) ==
            Cache(1, 2, [Entry(false, 0, 0), Entry(true, 1, 2)], 2)
    ensures Lookup(Ticked(Cache(1, 2, [Entry(false, 0, 0), Entry(true, 1, 2)], 2)), Line(0, 1)) == Fill(0)
  {
    hide Access, Invalidate, Row, Ticked, Lookup, Scan, Empty;
    assert Empty(1, 2) == Cache(1, 2, [Entry(false, 0, 0), Entry(false, 0, 0)], 0) by { EmptyPair(); }
    OneSet(Entry(false, 0, 0), Entry(false, 0, 0), 0, 0);
    OneSet(Entry(true, 0, 1), Entry(false, 0, 0), 1, 1);
    OneSet(Entry(false, 0, 0), Entry(true, 1, 2), 2, 1);
    DropFirst();
  }

  lemma {:induction false} EmptyPair()
    ensures Empty(1, 2) == Cache(1, 2, [Entry(false, 0, 0), Entry(false, 0, 0)], 0)
  {
  }

  lemma {:induction false} DropFirst()
    ensures Invalidate(Cache(1, 2, [Entry(true, 0, 1), Entry(true, 1, 2)], 2), Line(0, 0)) ==
            Cache(1, 2, [Entry(false, 0, 0), Entry(true, 1, 2)], 2)
  {
  }

  /** An access to a two-way cache of one set that has a free way in front of `b` or after `a`. */
  lemma {:induction false} OneSet(a: Entry, b: Entry, tick: nat, tag: nat)
    requires tick < 10 && a.age < 10
    requires !a.valid || (a.tag != tag && !b.valid)
    ensures var c := Cache(1, 2, [a, b], tick); var e := Entry(true, tag, tick + 1);
            && Lookup(Ticked(c), Line(0, tag)) == Fill(if a.valid then 1 else 0)
            && Access(c, Line(0, tag)) ==
               Cache(1, 2, if a.valid then [a, e] else [e, b], tick + 1)
  {
    hide Scan;
    var c := Cache(1, 2, [a, b], tick);
    assert Row(Ticked(c), 0) == [a, b];
    ScanPair(a, b, tag);
  }

  lemma {:induction false} ScanPair(a: Entry, b: Entry, tag: nat)
    requires !a.valid || (a.tag != tag && !b.valid)
    ensures Scan([a, b], tag, 0, 0, AGE_MAX) == Fill(if a.valid then 1 else 0)
  {
    if a.valid {
      assert Scan([a, b], tag, 1, 0, a.age) == Fill(1) && Scan([a, b], tag, 1, 0, AGE_MAX) == Fill(1);
    }
  }
}
