/**
 The set-associative cache of tools/qemu/sf2000-cache-model.c as a state machine:
 accesses, invalidations, and what a hit says about the history.
 */
module CacheModel {
  import opened CArithmetic

  const AGE_MAX := U32 - 1

  datatype Entry = Entry(valid: bool, tag: nat, age: nat)

  /** A cached line: the set its index selects and its tag. */
  datatype Line = Line(set_: nat, tag: nat)

  /** `entries` holds the ways of set 0, then those of set 1, and so on. */
  datatype Cache = Cache(sets: nat, ways: nat, entries: seq<Entry>, tick: nat)
  {
    predicate Valid() {
      sets > 0 && ways > 0 && |entries| == sets * ways && tick < U64
    }
  }

  lemma {:induction false} RowBounds(sets: nat, ways: nat, s: nat)
    requires s < sets
    ensures 0 <= s * ways <= s * ways + ways <= sets * ways
  {
    var d := sets - 1 - s;
    assert sets * ways == s * ways + ways + d * ways;
  }

  /** The ways of set `s`. */
  function Row(c: Cache, s: nat): (row: seq<Entry>)
    requires c.Valid() && s < c.sets
    ensures |row| == c.ways
  {
    RowBounds(c.sets, c.ways, s);
    c.entries[s * c.ways..s * c.ways + c.ways]
  }

  // ----- one access -----

  datatype Outcome = Hit(way: nat) | Fill(way: nat)

  /** The search loop from way `way` on, with the victim found so far. */
  function Scan(row: seq<Entry>, tag: nat, way: nat, victim: nat, oldest: nat): (o: Outcome)
    requires way <= |row| && victim < |row|
    ensures o.way < |row|
    decreases |row| - way
  {
    if way == |row| then Fill(victim)
    else if row[way].valid && row[way].tag == tag then Hit(way)
    else if !row[way].valid then Fill(way)
    else if row[way].age < oldest then Scan(row, tag, way + 1, way, row[way].age)
    else Scan(row, tag, way + 1, victim, oldest)
  }

  /** `++tick`, and the reset of all ages should the 64-bit counter ever wrap. */
  function Ticked(c: Cache): (d: Cache)
    requires c.Valid()
    ensures d.Valid() && d.sets == c.sets && d.ways == c.ways
  {
    if Wrap64(c.tick + 1) == 0 then
      c.(tick := 1, entries := seq(|c.entries|, i requires 0 <= i < |c.entries| => c.entries[i].(age := 0)))
    else c.(tick := c.tick + 1)
  }

  function Lookup(c: Cache, l: Line): (o: Outcome)
    requires c.Valid() && l.set_ < c.sets
    ensures o.way < c.ways
  {
    Scan(Row(c, l.set_), l.tag, 0, 0, AGE_MAX)
  }

  /** `cache_access_indexed` on a line: a hit refreshes the age, a miss replaces the chosen way. */
  function Access(c: Cache, l: Line): (d: Cache)
    requires c.Valid() && l.set_ < c.sets
    ensures d.Valid() && d.sets == c.sets && d.ways == c.ways
  {
    var t := Ticked(c);
    RowBounds(c.sets, c.ways, l.set_);
    t.(entries := t.entries[l.set_ * c.ways + Lookup(t, l).way := Entry(true, l.tag, Wrap32(t.tick))])
  }

  predicate Hits(c: Cache, l: Line)
    requires c.Valid() && l.set_ < c.sets
  {
    Lookup(Ticked(c), l).Hit?
  }

  /** `cache_invalidate_indexed`: every matching way of the set is cleared. */
  function Invalidate(c: Cache, l: Line): (d: Cache)
    requires c.Valid() && l.set_ < c.sets
    ensures d.Valid() && d.sets == c.sets && d.ways == c.ways
  {
    c.(entries := seq(|c.entries|, i requires 0 <= i < |c.entries| =>
      if l.set_ * c.ways <= i < l.set_ * c.ways + c.ways && c.entries[i].valid && c.entries[i].tag == l.tag
      then c.entries[i].(valid := false, age := 0) else c.entries[i]))
  }

  // ----- runs -----

  datatype Op = Touch(line: Line) | Drop(line: Line)

  predicate OpsIn(ops: seq<Op>, sets: nat) {
    forall i | 0 <= i < |ops| :: ops[i].line.set_ < sets
  }

  function Empty(sets: nat, ways: nat): (c: Cache)
    requires sets > 0 && ways > 0
    ensures c.Valid() && c.sets == sets && c.ways == ways
  {
    RowBounds(sets, ways, 0);
    Cache(sets, ways, seq(sets * ways, _ => Entry(false, 0, 0)), 0)
  }

  function Apply(c: Cache, op: Op): (d: Cache)
    requires c.Valid() && op.line.set_ < c.sets
    ensures d.Valid() && d.sets == c.sets && d.ways == c.ways
  {
    match op
    case Touch(l) => Access(c, l)
    case Drop(l) => Invalidate(c, l)
  }

  /** The cache after a run of operations from the empty cache. */
  function After(sets: nat, ways: nat, ops: seq<Op>): (c: Cache)
    requires sets > 0 && ways > 0 && OpsIn(ops, sets)
    ensures c.Valid() && c.sets == sets && c.ways == ways
  {
    if ops == [] then Empty(sets, ways)
    else Apply(After(sets, ways, ops[..|ops| - 1]), ops[|ops| - 1])
  }

  // ----- rows under one update -----

  lemma {:induction false} RowUpdated(c: Cache, s: nat, way: nat, e: Entry, other: nat)
    requires c.Valid() && s < c.sets && way < c.ways && other < c.sets
    ensures s * c.ways + way < |c.entries|
    ensures Row(c.(entries := c.entries[s * c.ways + way := e]), other) ==
            if other == s then Row(c, s)[way := e] else Row(c, other)
  {
    RowBounds(c.sets, c.ways, s);
    RowBounds(c.sets, c.ways, other);
    if other < s {
      RowBounds(s, c.ways, other);
    } else if s < other {
      RowBounds(other, c.ways, s);
    }
  }

  lemma {:induction false} AccessRows(c: Cache, l: Line, other: nat)
    requires c.Valid() && c.tick + 1 < U64 && l.set_ < c.sets && other < c.sets
    ensures Lookup(Ticked(c), l) == Lookup(c, l)
    ensures Row(Access(c, l), other) ==
            if other == l.set_ then Row(c, l.set_)[Lookup(c, l).way := Entry(true, l.tag, Wrap32(c.tick + 1))]
            else Row(c, other)
    ensures Access(c, l).tick == c.tick + 1
  {
    hide Scan;
    var t := Ticked(c);
    assert Row(t, l.set_) == Row(c, l.set_) && Row(t, other) == Row(c, other);
    RowUpdated(t, l.set_, Lookup(t, l).way, Entry(true, l.tag, Wrap32(t.tick)), other);
  }

  // ----- exact LRU without invalidation -----

  /** One more than the position of the last access of `l`; 0 when there is none. */
  function Last(h: seq<Line>, l: Line): (n: nat)
    ensures n <= |h| && (n > 0 <==> l in h) && (n > 0 ==> h[n - 1] == l)
    ensures forall k | n <= k < |h| :: h[k] != l
  {
    if h == [] then 0
    else if h[|h| - 1] == l then |h|
    else
      assert forall k | 0 <= k < |h| - 1 :: h[k] == h[..|h| - 1][k];
      Last(h[..|h| - 1], l)
  }

  /** The other lines of the set that were accessed since the last access of `l`. */
  ghost function Since(h: seq<Line>, l: Line): set<Line> {
    set m | m in h && m.set_ == l.set_ && Last(h, m) > Last(h, l)
  }

  ghost predicate Resident(row: seq<Entry>, tag: nat) {
    exists w :: 0 <= w < |row| && row[w].valid && row[w].tag == tag
  }

  /** The valid ways come first and hold distinct tags. */
  ghost predicate Packed(row: seq<Entry>) {
    forall w, v | 0 <= w < v < |row| && row[v].valid :: row[w].valid && row[w].tag != row[v].tag
  }

  /** Each valid way holds an accessed line, and its age is the time of that line's last access. */
  ghost predicate Stamped(row: seq<Entry>, h: seq<Line>, s: nat) {
    forall w | 0 <= w < |row| && row[w].valid ::
      Line(s, row[w].tag) in h && row[w].age == Last(h, Line(s, row[w].tag))
  }

  /** `m` is older than every way of a full set. */
  ghost predicate Outlived(row: seq<Entry>, h: seq<Line>, m: Line) {
    forall w | 0 <= w < |row| :: row[w].valid && Last(h, m) < row[w].age
  }

  /** What the ways of set `s` say about the history `h`; lines no longer held are outlived. */
  ghost predicate Exact(row: seq<Entry>, h: seq<Line>, s: nat) {
    && Packed(row) && Stamped(row, h, s)
    && forall m | m in h && m.set_ == s && !Resident(row, m.tag) :: Outlived(row, h, m)
  }

  /** In an exact set the search finds the line, else the first free way, else the oldest way. */
  lemma {:induction false} ScanExact(row: seq<Entry>, tag: nat, way: nat, victim: nat, oldest: nat)
    requires way <= |row| && victim < |row|
    requires Packed(row)
    requires forall w | 0 <= w < way :: row[w].valid && row[w].tag != tag && oldest <= row[w].age
    requires way > 0 ==> victim < way && oldest == row[victim].age
    requires way == 0 ==> forall w | 0 <= w < |row| && row[w].valid :: row[w].age <= oldest
    requires way == 0 ==> victim == 0
    ensures var o := Scan(row, tag, way, victim, oldest);
            && (o.Hit? <==> Resident(row, tag))
            && (o.Hit? ==> row[o.way].valid && row[o.way].tag == tag)
            && (o.Fill? && row[o.way].valid ==>
                  forall w | 0 <= w < |row| :: row[w].valid && row[o.way].age <= row[w].age)
    decreases |row| - way
  {
    if way < |row| {
      var e := row[way];
      if !e.valid || e.tag == tag {
      } else if e.age < oldest {
        ScanExact(row, tag, way + 1, way, e.age);
      } else if way == 0 {
        assert e.age == oldest;
        ScanExact(row, tag, 1, 0, oldest);
      } else {
        ScanExact(row, tag, way + 1, victim, oldest);
      }
    }
  }

  lemma {:induction false} LastAppend(h: seq<Line>, l: Line, m: Line)
    ensures Last(h + [l], m) == if m == l then |h| + 1 else Last(h, m)
  {
    assert (h + [l])[..|h|] == h;
  }

  /** Accessing one set changes nothing in what the others say. */
  lemma {:induction false} ExactOther(row: seq<Entry>, h: seq<Line>, l: Line, s: nat)
    requires Exact(row, h, s) && l.set_ != s
    ensures Exact(row, h + [l], s)
  {
    hide Last;
    forall m: Line | m.set_ == s
      ensures Last(h + [l], m) == Last(h, m)
    {
      LastAppend(h, l, m);
    }
  }

  lemma {:induction false} ExactStep(row: seq<Entry>, h: seq<Line>, l: Line)
    requires Exact(row, h, l.set_) && row != []
    requires forall w | 0 <= w < |row| && row[w].valid :: row[w].age <= AGE_MAX
    ensures var o := Scan(row, l.tag, 0, 0, AGE_MAX);
            Exact(row[o.way := Entry(true, l.tag, |h| + 1)], h + [l], l.set_)
  {
    hide Last, Scan, Outlived, Stamped;
    ScanExact(row, l.tag, 0, 0, AGE_MAX);
    var o := Scan(row, l.tag, 0, 0, AGE_MAX);
    var next := row[o.way := Entry(true, l.tag, |h| + 1)];
    ScanFillsFirst(row, l.tag, 0, 0, AGE_MAX);
    StampedStep(row, h, l, o.way);
    forall m | m in h + [l] && m.set_ == l.set_ && !Resident(next, m.tag)
      ensures Outlived(next, h + [l], m)
    {
      OutlivedStep(row, h, l, o.way, m);
    }
  }

  lemma {:induction false} StampedStep(row: seq<Entry>, h: seq<Line>, l: Line, way: nat)
    requires Packed(row) && Stamped(row, h, l.set_) && way < |row|
    requires (row[way].valid && row[way].tag == l.tag) || !Resident(row, l.tag)
    ensures Stamped(row[way := Entry(true, l.tag, |h| + 1)], h + [l], l.set_)
  {
    hide Last;
    var next := row[way := Entry(true, l.tag, |h| + 1)];
    forall w | 0 <= w < |next| && next[w].valid
      ensures Line(l.set_, next[w].tag) in h + [l]
      ensures next[w].age == Last(h + [l], Line(l.set_, next[w].tag))
    {
      LastAppend(h, l, Line(l.set_, next[w].tag));
    }
  }

  /** A line that is not held after the access was either not held before or is the evicted one. */
  lemma {:induction false} OutlivedStep(row: seq<Entry>, h: seq<Line>, l: Line, way: nat, m: Line)
    requires Exact(row, h, l.set_) && way < |row|
    requires row[way].valid && row[way].tag != l.tag ==>
               forall w | 0 <= w < |row| :: row[w].valid && row[way].age <= row[w].age
    requires m in h + [l] && m.set_ == l.set_
    requires !Resident(row[way := Entry(true, l.tag, |h| + 1)], m.tag)
    ensures Outlived(row[way := Entry(true, l.tag, |h| + 1)], h + [l], m)
  {
    hide Last;
    var next := row[way := Entry(true, l.tag, |h| + 1)];
    assert next[way].valid && next[way].tag == l.tag;
    assert m != l && m in h;
    LastAppend(h, l, m);
    assert forall v | 0 <= v < |row| && v != way :: next[v] == row[v];
    if Resident(row, m.tag) {
      assert row[way].valid && row[way].tag == m.tag;
      assert Line(l.set_, row[way].tag) == m;
      OldestIsStrict(row, h, l.set_, way);
    }
  }

  /** A free way is chosen only when every way before it is taken. */
  lemma {:induction false} ScanFillsFirst(row: seq<Entry>, tag: nat, way: nat, victim: nat, oldest: nat)
    requires way <= |row| && victim < |row| && (victim == 0 || victim < way)
    requires forall w | 0 <= w < way :: row[w].valid
    ensures var o := Scan(row, tag, way, victim, oldest);
            forall w | 0 <= w < o.way :: row[w].valid
    decreases |row| - way
  {
    if way < |row| && row[way].valid && row[way].tag != tag {
      if row[way].age < oldest {
        ScanFillsFirst(row, tag, way + 1, way, row[way].age);
      } else {
        ScanFillsFirst(row, tag, way + 1, victim, oldest);
      }
    }
  }

  /** Different lines have different last accesses, so the oldest way is strictly the oldest. */
  lemma {:induction false} OldestIsStrict(row: seq<Entry>, h: seq<Line>, s: nat, v: nat)
    requires Exact(row, h, s) && v < |row|
    requires forall w | 0 <= w < |row| :: row[w].valid && row[v].age <= row[w].age
    ensures forall w | 0 <= w < |row| && w != v :: row[v].age < row[w].age
  {
    hide Last;
    forall w | 0 <= w < |row| && w != v
      ensures row[v].age < row[w].age
    {
      assert row[w].tag != row[v].tag;
      assert Last(h, Line(s, row[w].tag)) == row[w].age && Last(h, Line(s, row[v].tag)) == row[v].age;
    }
  }

  function Touches(h: seq<Line>): seq<Op> {
    seq(|h|, i requires 0 <= i < |h| => Touch(h[i]))
  }

  predicate LinesIn(h: seq<Line>, sets: nat) {
    forall i | 0 <= i < |h| :: h[i].set_ < sets
  }

  /** Every set of the cache is exact after any run of fewer than 2^32 accesses. */
  lemma {:induction false} RunsAreExact(sets: nat, ways: nat, h: seq<Line>)
    requires sets > 0 && ways > 0 && LinesIn(h, sets) && |h| < U32
    ensures var c := After(sets, ways, Touches(h));
            c.tick == |h| && forall s | 0 <= s < sets :: Exact(Row(c, s), h, s)
  {
    hide Access, Row, Exact, Ticked, Lookup;
    if h == [] {
      assert Touches(h) == [];
      forall s | 0 <= s < sets
        ensures Exact(Row(Empty(sets, ways), s), h, s)
      {
        EmptyIsExact(sets, ways, s);
      }
    } else {
      var n := |h| - 1;
      var l := h[n];
      assert Touches(h)[..n] == Touches(h[..n]) && Touches(h)[n] == Touch(l);
      RunsAreExact(sets, ways, h[..n]);
      assert h == h[..n] + [l];
      var c := After(sets, ways, Touches(h[..n]));
      forall s | 0 <= s < sets
        ensures Exact(Row(Access(c, l), s), h, s)
      {
        AccessKeepsExact(c, h[..n], l, s);
      }
      AccessRows(c, l, 0);
    }
  }

  lemma {:induction false} EmptyIsExact(sets: nat, ways: nat, s: nat)
    requires ways > 0 && s < sets
    ensures Exact(Row(Empty(sets, ways), s), [], s)
  {
    RowBounds(sets, ways, s);
  }

  lemma {:induction false} AccessKeepsExact(c: Cache, h: seq<Line>, l: Line, s: nat)
    requires c.Valid() && l.set_ < c.sets && s < c.sets
    requires c.tick == |h| && |h| + 1 < U32
    requires Exact(Row(c, l.set_), h, l.set_) && Exact(Row(c, s), h, s)
    ensures Exact(Row(Access(c, l), s), h + [l], s)
  {
    hide Access, Row;
    AccessRows(c, l, s);
    if s == l.set_ {
      ExactStep(Row(c, s), h, l);
    } else {
      ExactOther(Row(c, s), h, l, s);
    }
  }

  // ----- the reuse-distance law -----

  /** The lines held by the first `n` ways. */
  ghost function Held(row: seq<Entry>, s: nat, n: nat): set<Line>
    requires n <= |row|
  {
    set w | 0 <= w < n :: Line(s, row[w].tag)
  }

  lemma {:induction false} HeldCount(row: seq<Entry>, s: nat, n: nat)
    requires n <= |row|
    requires forall w, v | 0 <= w < v < n :: row[w].tag != row[v].tag
    ensures |Held(row, s, n)| == n
  {
    if n > 0 {
      HeldCount(row, s, n - 1);
      var l := Line(s, row[n - 1].tag);
      assert l !in Held(row, s, n - 1);
      assert Held(row, s, n) == Held(row, s, n - 1) + {l};
    }
  }

  /** In an exact set a line is held exactly when few enough others came after it. */
  lemma {:induction false} ResidentIffRecent(row: seq<Entry>, h: seq<Line>, l: Line)
    requires Exact(row, h, l.set_) && row != []
    ensures Resident(row, l.tag) <==> l in h && |Since(h, l)| < |row|
  {
    hide Last;
    if Resident(row, l.tag) {
      ResidentIsRecent(row, h, l);
    } else if l in h {
      HeldCount(row, l.set_, |row|);
      var held := Held(row, l.set_, |row|);
      assert held <= Since(h, l);
      SubsetCount(held, Since(h, l));
    }
  }

  lemma {:induction false} ResidentIsRecent(row: seq<Entry>, h: seq<Line>, l: Line)
    requires Exact(row, h, l.set_) && Resident(row, l.tag)
    ensures l in h && |Since(h, l)| < |row|
  {
    hide Last;
    var w :| 0 <= w < |row| && row[w].valid && row[w].tag == l.tag;
    assert Line(l.set_, row[w].tag) == l;
    var n := ValidCount(row, 0);
    HeldCount(row, l.set_, n);
    var held := Held(row, l.set_, n);
    assert l in held;
    forall m | m in Since(h, l)
      ensures m in held - {l}
    {
      assert Resident(row, m.tag);
      var v :| 0 <= v < |row| && row[v].valid && row[v].tag == m.tag;
      assert m == Line(l.set_, row[v].tag);
    }
    SubsetCount(Since(h, l), held - {l});
  }

  /** The number of valid ways when they come first. */
  ghost function ValidCount(row: seq<Entry>, from: nat): (n: nat)
    requires from <= |row|
    requires forall w | 0 <= w < from :: row[w].valid
    requires forall w, v | 0 <= w < v < |row| && row[v].valid :: row[w].valid
    ensures n <= |row| && forall w | 0 <= w < |row| :: row[w].valid <==> w < n
    decreases |row| - from
  {
    if from < |row| && row[from].valid then ValidCount(row, from + 1) else from
  }

  lemma {:induction false} SubsetCount<T>(a: set<T>, b: set<T>)
    requires a <= b
    ensures |a| <= |b|
    decreases a
  {
    if a != {} {
      var x :| x in a;
      SubsetCount(a - {x}, b - {x});
    }
  }

  /** The search of any row: which way hits, or which way is filled. */
  lemma {:induction false} ScanOutcome(row: seq<Entry>, tag: nat, way: nat, victim: nat, oldest: nat)
    requires way <= |row| && victim < |row|
    requires forall w | 0 <= w < way :: row[w].valid && row[w].tag != tag && oldest <= row[w].age
    requires way > 0 ==> victim < way && oldest == row[victim].age
    requires way == 0 ==> victim == 0 && forall w | 0 <= w < |row| && row[w].valid :: row[w].age <= oldest
    ensures var o := Scan(row, tag, way, victim, oldest);
            if o.Hit? then
              row[o.way].valid && row[o.way].tag == tag && forall w | 0 <= w < o.way :: row[w].valid
            else
              || (!row[o.way].valid && forall w | 0 <= w < o.way :: row[w].valid && row[w].tag != tag)
              || forall w | 0 <= w < |row| :: row[w].valid && row[w].tag != tag && row[o.way].age <= row[w].age
    decreases |row| - way
  {
    if way < |row| {
      var e := row[way];
      if !e.valid || e.tag == tag {
      } else if e.age < oldest {
        ScanOutcome(row, tag, way + 1, way, e.age);
      } else if way == 0 {
        assert e.age == oldest;
        ScanOutcome(row, tag, 1, 0, oldest);
      } else {
        ScanOutcome(row, tag, way + 1, victim, oldest);
      }
    }
  }

  /** The search comes to the line: only valid ways stand before it. */
  ghost predicate Reachable(row: seq<Entry>, tag: nat) {
    exists w :: 0 <= w < |row| && row[w].valid && row[w].tag == tag && forall v | 0 <= v < w :: row[v].valid
  }

  ghost predicate Young(row: seq<Entry>) {
    forall w | 0 <= w < |row| && row[w].valid :: row[w].age <= AGE_MAX
  }

  /** In every row, packed or not, the search hits exactly the lines it comes to. */
  lemma {:induction false} ScanHitsIff(row: seq<Entry>, tag: nat)
    requires row != [] && Young(row)
    ensures Scan(row, tag, 0, 0, AGE_MAX).Hit? <==> Reachable(row, tag)
  {
    hide Scan;
    ScanOutcome(row, tag, 0, 0, AGE_MAX);
  }

  /** The same ways hold the same lines, whatever their ages. */
  ghost predicate SameLines(a: seq<Entry>, b: seq<Entry>) {
    |a| == |b| && forall w | 0 <= w < |a| :: a[w].valid == b[w].valid && a[w].tag == b[w].tag
  }

  /**
   Access 2^32 is stamped with age 0, but which lines are held is right up to and including it:
   the row differs from an exact one in its ages only.
   */
  lemma {:induction false} RunsHoldExact(sets: nat, ways: nat, h: seq<Line>, s: nat) returns (row: seq<Entry>)
    requires sets > 0 && ways > 0 && LinesIn(h, sets) && s < sets && |h| <= U32
    ensures After(sets, ways, Touches(h)).tick == |h|
    ensures Exact(row, h, s) && SameLines(Row(After(sets, ways, Touches(h)), s), row)
    ensures Young(Row(After(sets, ways, Touches(h)), s))
  {
    hide Access, Row, Exact, Ticked, Lookup, Scan;
    if |h| < U32 {
      RunsAreExact(sets, ways, h);
      row := Row(After(sets, ways, Touches(h)), s);
      ExactIsYoung(row, h, s);
    } else {
      var n := |h| - 1;
      var l := h[n];
      assert Touches(h)[..n] == Touches(h[..n]) && Touches(h)[n] == Touch(l);
      RunsAreExact(sets, ways, h[..n]);
      var c := After(sets, ways, Touches(h[..n]));
      row := LastAccess(c, h[..n], l, s);
      assert h[..n] + [l] == h;
    }
  }

  lemma {:induction false} ExactIsYoung(row: seq<Entry>, h: seq<Line>, s: nat)
    requires Exact(row, h, s) && |h| < U32
    ensures Young(row)
  {
    hide Last;
  }

  lemma {:induction false} LastAccess(c: Cache, h: seq<Line>, l: Line, s: nat) returns (row: seq<Entry>)
    requires c.Valid() && l.set_ < c.sets && s < c.sets && c.tick == |h| == U32 - 1
    requires Exact(Row(c, l.set_), h, l.set_) && Exact(Row(c, s), h, s)
    ensures Access(c, l).tick == U32
    ensures Exact(row, h + [l], s) && SameLines(Row(Access(c, l), s), row) && Young(Row(Access(c, l), s))
  {
    hide Access, Row, Exact, Scan;
    AccessRows(c, l, s);
    row := Row(c, s);
    ExactIsYoung(row, h, s);
    if s == l.set_ {
      ExactStep(row, h, l);
      row := row[Lookup(c, l).way := Entry(true, l.tag, |h| + 1)];
    } else {
      ExactOther(row, h, l, s);
    }
  }

  /**
   The reuse-distance law: without invalidation an access hits exactly when the line
   was accessed before and fewer than `ways` other lines of its set came since.
   */
  lemma {:induction false} HitIffRecent(sets: nat, ways: nat, h: seq<Line>, l: Line)
    requires sets > 0 && ways > 0 && LinesIn(h, sets) && l.set_ < sets && |h| <= U32
    ensures Hits(After(sets, ways, Touches(h)), l) <==> l in h && |Since(h, l)| < ways
  {
    hide Row, Last, After, Access, Scan;
    var row := RunsHoldExact(sets, ways, h, l.set_);
    var c := After(sets, ways, Touches(h));
    AccessRows(c, l, l.set_);
    ScanHitsIff(Row(c, l.set_), l.tag);
    PackedReachable(Row(c, l.set_), row, l.tag);
    ResidentIffRecent(row, h, l);
  }

  /** In a packed row every line that is held is come to. */
  lemma {:induction false} PackedReachable(row: seq<Entry>, same: seq<Entry>, tag: nat)
    requires SameLines(row, same) && Packed(same)
    ensures Reachable(row, tag) <==> Resident(same, tag)
  {
    if Resident(same, tag) {
      var w :| 0 <= w < |same| && same[w].valid && same[w].tag == tag;
      assert row[w].valid && row[w].tag == tag;
    }
  }

  // ----- runs with invalidation -----

  /** The last operation on `l`, if any, was an access. */
  predicate Live(ops: seq<Op>, l: Line) {
    ops != [] &&
    var op := ops[|ops| - 1];
    if op.line == l then op.Touch? else Live(ops[..|ops| - 1], l)
  }

  /** Every valid way of the row holds a live line. */
  predicate RowLive(row: seq<Entry>, ops: seq<Op>, s: nat) {
    forall w | 0 <= w < |row| && row[w].valid :: Live(ops, Line(s, row[w].tag))
  }

  lemma {:induction false} LiveAppend(ops: seq<Op>, op: Op, l: Line)
    ensures Live(ops + [op], l) <==> if op.line == l then op.Touch? else Live(ops, l)
  {
    assert (ops + [op])[..|ops|] == ops;
  }

  lemma {:induction false} LiveMeans(ops: seq<Op>, l: Line)
    requires Live(ops, l)
    ensures exists k :: 0 <= k < |ops| && ops[k] == Touch(l) && forall j | k < j < |ops| :: ops[j] != Drop(l)
  {
    var n := |ops| - 1;
    if ops[n].line == l {
      assert ops[n] == Touch(l);
    } else {
      LiveMeans(ops[..n], l);
      var k :| 0 <= k < n && ops[..n][k] == Touch(l) && forall j | k < j < n :: ops[..n][j] != Drop(l);
      assert ops[k] == Touch(l);
      assert forall j | k < j < n :: ops[j] == ops[..n][j];
    }
  }

  lemma {:induction false} RowAt(c: Cache, s: nat, w: nat)
    requires c.Valid() && s < c.sets && w < c.ways
    ensures s * c.ways + w < |c.entries| && Row(c, s)[w] == c.entries[s * c.ways + w]
  {
    RowBounds(c.sets, c.ways, s);
  }

  /** Where way `w` of set `s` is stored lies in the ways of no other set. */
  lemma {:induction false} RowsApart(ways: nat, s: nat, w: nat, other: nat)
    requires w < ways
    ensures other * ways <= s * ways + w < other * ways + ways <==> s == other
  {
    MulApart(s - other, ways);
    assert (s - other) * ways == s * ways - other * ways;
  }

  lemma {:induction false} InvalidateRow(c: Cache, l: Line, s: nat, w: nat)
    requires c.Valid() && l.set_ < c.sets && s < c.sets && w < c.ways
    ensures Row(Invalidate(c, l), s)[w] ==
            var e := Row(c, s)[w];
            if s == l.set_ && e.valid && e.tag == l.tag then e.(valid := false, age := 0) else e
  {
    hide Row;
    RowAt(c, s, w);
    RowAt(Invalidate(c, l), s, w);
    RowsApart(c.ways, s, w, l.set_);
  }

  /** Rows of the ticked cache hold the same lines, also when the counter wraps. */
  lemma {:induction false} TickedRow(c: Cache, s: nat, w: nat)
    requires c.Valid() && s < c.sets && w < c.ways
    ensures var e := Row(c, s)[w]; var f := Row(Ticked(c), s)[w];
            f.valid == e.valid && f.tag == e.tag
  {
    RowBounds(c.sets, c.ways, s);
  }

  lemma {:induction false} ApplyKeepsLive(c: Cache, ops: seq<Op>, op: Op, s: nat)
    requires c.Valid() && op.line.set_ < c.sets && s < c.sets
    requires RowLive(Row(c, s), ops, s)
    ensures RowLive(Row(Apply(c, op), s), ops + [op], s)
  {
    hide Row, Live, Scan, Ticked;
    var l := op.line;
    var row := Row(Apply(c, op), s);
    if op.Touch? {
      var t := Ticked(c);
      RowUpdated(t, l.set_, Lookup(t, l).way, Entry(true, l.tag, Wrap32(t.tick)), s);
    }
    forall w | 0 <= w < |row| && row[w].valid
      ensures Live(ops + [op], Line(s, row[w].tag))
    {
      LiveAppend(ops, op, Line(s, row[w].tag));
      TickedRow(c, s, w);
      if op.Drop? {
        InvalidateRow(c, l, s, w);
      }
    }
  }

  lemma {:induction false} RunsAreLive(sets: nat, ways: nat, ops: seq<Op>, s: nat)
    requires sets > 0 && ways > 0 && OpsIn(ops, sets) && s < sets
    ensures RowLive(Row(After(sets, ways, ops), s), ops, s)
    decreases |ops|
  {
    hide Row, Live, Apply;
    if ops == [] {
      EmptyRow(sets, ways, s);
    } else {
      var n := |ops| - 1;
      RunsAreLive(sets, ways, ops[..n], s);
      ApplyKeepsLive(After(sets, ways, ops[..n]), ops[..n], ops[n], s);
      assert ops[..n] + [ops[n]] == ops;
    }
  }

  lemma {:induction false} EmptyRow(sets: nat, ways: nat, s: nat)
    requires ways > 0 && s < sets
    ensures forall w | 0 <= w < ways :: !Row(Empty(sets, ways), s)[w].valid
  {
    RowBounds(sets, ways, s);
  }

  /** A scan reports a hit only on a valid way with the tag. */
  lemma {:induction false} ScanHit(row: seq<Entry>, tag: nat, way: nat, victim: nat, oldest: nat)
    requires way <= |row| && victim < |row|
    ensures var o := Scan(row, tag, way, victim, oldest);
            o.Hit? ==> row[o.way].valid && row[o.way].tag == tag
    decreases |row| - way
  {
    if way < |row| && row[way].valid && row[way].tag != tag {
      if row[way].age < oldest {
        ScanHit(row, tag, way + 1, way, row[way].age);
      } else {
        ScanHit(row, tag, way + 1, victim, oldest);
      }
    }
  }

  /** No stale hit: in every run, a hit means an access that no invalidation of the line followed. */
  lemma {:induction false} HitIsFresh(sets: nat, ways: nat, ops: seq<Op>, l: Line)
    requires sets > 0 && ways > 0 && OpsIn(ops, sets) && l.set_ < sets
    requires Hits(After(sets, ways, ops), l)
    ensures exists k :: 0 <= k < |ops| && ops[k] == Touch(l) && forall j | k < j < |ops| :: ops[j] != Drop(l)
  {
    hide Row, Live, Ticked, After, Scan;
    var c := After(sets, ways, ops);
    RunsAreLive(sets, ways, ops, l.set_);
    var row := Row(Ticked(c), l.set_);
    ScanHit(row, l.tag, 0, 0, AGE_MAX);
    var w := Lookup(Ticked(c), l).way;
    TickedRow(c, l.set_, w);
    assert Line(l.set_, row[w].tag) == l;
    LiveMeans(ops, l);
  }

  lemma {:induction false} AfterOne(sets: nat, ways: nat, ops: seq<Op>, op: Op)
    requires sets > 0 && ways > 0 && OpsIn(ops, sets) && op.line.set_ < sets
    ensures OpsIn(ops + [op], sets)
    ensures After(sets, ways, ops + [op]) == Apply(After(sets, ways, ops), op)
  {
    assert (ops + [op])[..|ops|] == ops;
  }

  lemma {:induction false} TouchesAppend(h: seq<Line>, l: Line)
    ensures Touches(h + [l]) == Touches(h) + [Touch(l)]
  {
  }

  // ----- addresses -----

  function Block(address: nat, lineSize: nat): nat
    requires lineSize > 0
  {
    address / lineSize
  }

  /** The line an access touches: set from the index address, tag from the tag address. */
  function LineOf(lineSize: nat, sets: nat, tagAddress: nat, indexAddress: nat): (l: Line)
    requires lineSize > 0 && sets > 0
    ensures l.set_ < sets
  {
    Line(Block(indexAddress, lineSize) % sets, Block(tagAddress, lineSize) / sets)
  }

  /** With one address for both, lines are exactly the aligned blocks of memory. */
  lemma {:induction false} PhysicalLines(lineSize: nat, sets: nat, a: nat, b: nat)
    requires lineSize > 0 && sets > 0
    ensures LineOf(lineSize, sets, a, a) == LineOf(lineSize, sets, b, b) <==> a / lineSize == b / lineSize
  {
    assert a / lineSize == (a / lineSize) / sets * sets + (a / lineSize) % sets;
    assert b / lineSize == (b / lineSize) / sets * sets + (b / lineSize) % sets;
  }

  /** `mips_direct_phys`: KSEG0 and KSEG1 addresses lose their segment bits. */
  function DirectPhys(address: nat): (p: nat) {
    var value := Wrap32(address);
    if value / 0x2000_0000 == 4 || value / 0x2000_0000 == 5 then value % 0x2000_0000 else value
  }

  /**
   Virtual indexing of a direct segment selects the physical set whenever one way
   spans a divisor of the 512 MiB segment, as every power-of-two way size below it does.
   */
  lemma {:induction false} DirectSegmentIndex(lineSize: nat, sets: nat, v: nat)
    requires lineSize > 0 && sets > 0
    requires 0x8000_0000 <= v < 0xc000_0000 && 0x2000_0000 % (lineSize * sets) == 0
    ensures LineOf(lineSize, sets, DirectPhys(v), v) == LineOf(lineSize, sets, DirectPhys(v), DirectPhys(v))
  {
    var p := DirectPhys(v);
    var segment := v / 0x2000_0000;
    var spans := 0x2000_0000 / (lineSize * sets);
    assert 0x2000_0000 == spans * (lineSize * sets);
    var k := segment * spans;
    assert v == p + k * (lineSize * sets) by {
      assert v == p + segment * 0x2000_0000;
      assert segment * (spans * (lineSize * sets)) == k * (lineSize * sets);
    }
    assert k * (lineSize * sets) == (k * sets) * lineSize;
    var q, r := p / lineSize, p % lineSize;
    DivModUnique(v, lineSize, q + k * sets, r);
    var m, n := q / sets, q % sets;
    assert (m + k) * sets == m * sets + k * sets;
    DivModUnique(q + k * sets, sets, m + k, n);
  }
}
