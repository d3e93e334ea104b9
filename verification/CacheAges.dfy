/**
 How long the reuse-distance law of the cache lasts. Ages are the low 32 bits of the access
 count, so access 2^32 makes its line look like the oldest one.
 */
module CacheAges {
  import opened CArithmetic
  import opened CacheModel

  /** The reuse-distance law for all histories of at most `n` accesses. */
  ghost predicate LawUpTo(sets: nat, ways: nat, n: nat)
    requires sets > 0 && ways > 0
  {
    forall h, l: Line | |h| <= n && LinesIn(h, sets) && l.set_ < sets :: LawHolds(sets, ways, h, l)
  }

  ghost predicate LawHolds(sets: nat, ways: nat, h: seq<Line>, l: Line)
    requires sets > 0 && ways > 0 && LinesIn(h, sets) && l.set_ < sets
  {
    Hits(After(sets, ways, Touches(h)), l) <==> l in h && |Since(h, l)| < ways
  }

  // ----- one way: ages are never compared -----

  /** The single way of a set holds the line of the set that was accessed last. */
  ghost predicate HoldsLast(row: seq<Entry>, h: seq<Line>, s: nat) {
    && |row| == 1
    && (row[0].valid ==> Line(s, row[0].tag) in h)
    && forall m | m in h && m.set_ == s :: row[0].valid && Last(h, m) <= Last(h, Line(s, row[0].tag))
  }

  lemma {:induction false} OneWayStep(row: seq<Entry>, next: seq<Entry>, h: seq<Line>, l: Line, s: nat)
    requires HoldsLast(row, h, s) && |next| == 1
    requires if s == l.set_ then next[0].valid && next[0].tag == l.tag
             else next[0].valid == row[0].valid && next[0].tag == row[0].tag
    ensures HoldsLast(next, h + [l], s)
  {
    hide Last;
    forall m: Line ensures Last(h + [l], m) == if m == l then |h| + 1 else Last(h, m) {
      LastAppend(h, l, m);
    }
  }

  lemma {:induction false} OneWayAccess(c: Cache, l: Line, s: nat)
    requires c.Valid() && c.ways == 1 && l.set_ < c.sets && s < c.sets
    ensures var e := Row(c, s)[0]; var f := Row(Access(c, l), s)[0];
            if s == l.set_ then f.valid && f.tag == l.tag else f.valid == e.valid && f.tag == e.tag
  {
    hide Row, Scan, Ticked;
    var t := Ticked(c);
    RowUpdated(t, l.set_, Lookup(t, l).way, Entry(true, l.tag, Wrap32(t.tick)), s);
    TickedRow(c, s, 0);
  }

  lemma {:induction false} OneWayRun(sets: nat, h: seq<Line>, s: nat)
    requires LinesIn(h, sets) && s < sets
    ensures HoldsLast(Row(After(sets, 1, Touches(h)), s), h, s)
    decreases |h|
  {
    hide Row, Access, HoldsLast;
    if h == [] {
      assert Touches(h) == [];
      EmptyRow(sets, 1, s);
      EmptyHoldsLast(Row(Empty(sets, 1), s), s);
    } else {
      var n := |h| - 1;
      assert Touches(h)[..n] == Touches(h[..n]) && Touches(h)[n] == Touch(h[n]);
      OneWayRun(sets, h[..n], s);
      var c := After(sets, 1, Touches(h[..n]));
      OneWayAccess(c, h[n], s);
      OneWayStep(Row(c, s), Row(Access(c, h[n]), s), h[..n], h[n], s);
      assert h[..n] + [h[n]] == h;
    }
  }

  lemma {:induction false} EmptyHoldsLast(row: seq<Entry>, s: nat)
    requires |row| == 1 && !row[0].valid
    ensures HoldsLast(row, [], s)
  {
  }

  /** With one way the law holds for histories of any length. */
  lemma {:induction false} OneWayLaw(sets: nat, h: seq<Line>, l: Line)
    requires sets > 0 && LinesIn(h, sets) && l.set_ < sets
    ensures LawHolds(sets, 1, h, l)
  {
    hide Row, After, Last, Ticked, Scan;
    OneWayRun(sets, h, l.set_);
    var c := After(sets, 1, Touches(h));
    var row := Row(c, l.set_);
    TickedRow(c, l.set_, 0);
    OneWayScan(Row(Ticked(c), l.set_), l.tag);
    OneWaySince(row, h, l);
  }

  lemma {:induction false} OneWayScan(row: seq<Entry>, tag: nat)
    requires |row| == 1
    ensures Scan(row, tag, 0, 0, AGE_MAX).Hit? <==> row[0].valid && row[0].tag == tag
  {
    assert Scan(row, tag, 1, 0, row[0].age).Fill? && Scan(row, tag, 1, 0, AGE_MAX).Fill?;
  }

  lemma {:induction false} OneWaySince(row: seq<Entry>, h: seq<Line>, l: Line)
    requires HoldsLast(row, h, l.set_)
    ensures row[0].valid && row[0].tag == l.tag <==> l in h && |Since(h, l)| < 1
  {
    hide Last;
    if l in h {
      var m := Line(l.set_, row[0].tag);
      if m == l {
        assert Since(h, l) == {};
      } else {
        assert h[Last(h, l) - 1] == l && h[Last(h, m) - 1] == m;
        assert m in Since(h, l);
      }
    }
  }

  // ----- more ways than accesses: nothing is evicted -----

  /** The row holds every line of the set accessed so far, in its first ways. */
  ghost predicate HoldsAll(row: seq<Entry>, h: seq<Line>, s: nat) {
    && Packed(row) && Young(row)
    && (forall tag :: Resident(row, tag) <==> Line(s, tag) in h)
    && forall w | |h| <= w < |row| :: !row[w].valid
  }

  lemma {:induction false} HoldsAllStep(row: seq<Entry>, h: seq<Line>, l: Line, age: nat)
    requires HoldsAll(row, h, l.set_) && |h| < |row| && age <= AGE_MAX
    ensures HoldsAll(row[Scan(row, l.tag, 0, 0, AGE_MAX).way := Entry(true, l.tag, age)], h + [l], l.set_)
  {
    hide Scan;
    ScanOutcome(row, l.tag, 0, 0, AGE_MAX);
    var w := Scan(row, l.tag, 0, 0, AGE_MAX).way;
    var next := row[w := Entry(true, l.tag, age)];
    assert !row[|h|].valid;
    assert row[w].valid ==> row[w].tag == l.tag;
    assert w <= |h|;
    forall tag ensures Resident(next, tag) <==> Line(l.set_, tag) in h + [l] {
      if tag == l.tag {
        assert next[w].valid && next[w].tag == tag;
      } else if Resident(row, tag) {
        var v :| 0 <= v < |row| && row[v].valid && row[v].tag == tag;
        assert next[v] == row[v];
      }
    }
    assert Packed(next) by {
      FirstHoleKeepsPacked(row, w, l.tag, age);
    }
  }

  lemma {:induction false} FirstHoleKeepsPacked(row: seq<Entry>, w: nat, tag: nat, age: nat)
    requires Packed(row) && w < |row|
    requires if row[w].valid then row[w].tag == tag
             else forall v | 0 <= v < |row| && row[v].valid :: row[v].tag != tag
    requires forall v | 0 <= v < w :: row[v].valid
    ensures Packed(row[w := Entry(true, tag, age)])
  {
  }

  lemma {:induction false} HoldsAllOther(row: seq<Entry>, same: seq<Entry>, h: seq<Line>, l: Line, s: nat)
    requires HoldsAll(row, h, s) && SameLines(row, same) && Young(same)
    ensures HoldsAll(same, h, s)
    ensures s != l.set_ ==> HoldsAll(same, h + [l], s)
  {
    forall tag ensures Resident(same, tag) <==> Resident(row, tag) {
      if Resident(row, tag) {
        var w :| 0 <= w < |row| && row[w].valid && row[w].tag == tag;
        assert same[w].valid && same[w].tag == tag;
      }
    }
  }

  lemma {:induction false} TickedSame(c: Cache, s: nat)
    requires c.Valid() && s < c.sets && Young(Row(c, s))
    ensures SameLines(Row(c, s), Row(Ticked(c), s)) && Young(Row(Ticked(c), s))
  {
    hide Row;
    forall w | 0 <= w < c.ways
      ensures var e := Row(c, s)[w]; var f := Row(Ticked(c), s)[w];
              f.valid == e.valid && f.tag == e.tag && f.age <= e.age
    {
      RowAt(c, s, w);
      RowAt(Ticked(c), s, w);
    }
  }

  lemma {:induction false} HoldsAllAccess(c: Cache, h: seq<Line>, l: Line, s: nat)
    requires c.Valid() && l.set_ < c.sets && s < c.sets && |h| < c.ways
    requires HoldsAll(Row(c, s), h, s)
    ensures HoldsAll(Row(Access(c, l), s), h + [l], s)
  {
    hide Row, Scan, Ticked, HoldsAll;
    var t := Ticked(c);
    assert Young(Row(c, s)) by { HoldsAllYoung(Row(c, s), h, s); }
    TickedSame(c, s);
    HoldsAllOther(Row(c, s), Row(t, s), h, l, s);
    RowUpdated(t, l.set_, Lookup(t, l).way, Entry(true, l.tag, Wrap32(t.tick)), s);
    if s == l.set_ {
      HoldsAllStep(Row(t, s), h, l, Wrap32(t.tick));
    }
  }

  lemma {:induction false} HoldsAllYoung(row: seq<Entry>, h: seq<Line>, s: nat)
    requires HoldsAll(row, h, s)
    ensures Young(row)
  {
  }

  lemma {:induction false} HoldsAllRun(sets: nat, ways: nat, h: seq<Line>, s: nat)
    requires LinesIn(h, sets) && s < sets && |h| <= ways && ways > 0
    ensures HoldsAll(Row(After(sets, ways, Touches(h)), s), h, s)
    decreases |h|
  {
    hide Row, Access, HoldsAll;
    if h == [] {
      assert Touches(h) == [];
      EmptyRow(sets, ways, s);
      EmptyHoldsAll(Row(Empty(sets, ways), s), s);
    } else {
      var n := |h| - 1;
      assert Touches(h)[..n] == Touches(h[..n]) && Touches(h)[n] == Touch(h[n]);
      HoldsAllRun(sets, ways, h[..n], s);
      HoldsAllAccess(After(sets, ways, Touches(h[..n])), h[..n], h[n], s);
      assert h[..n] + [h[n]] == h;
    }
  }

  lemma {:induction false} EmptyHoldsAll(row: seq<Entry>, s: nat)
    requires forall w | 0 <= w < |row| :: !row[w].valid
    ensures HoldsAll(row, [], s)
  {
  }

  ghost function Elements(h: seq<Line>): set<Line> {
    set m | m in h
  }

  lemma {:induction false} ElementCount(h: seq<Line>)
    ensures |Elements(h)| <= |h|
    decreases |h|
  {
    if h != [] {
      var n := |h| - 1;
      ElementCount(h[..n]);
      assert Elements(h) <= Elements(h[..n]) + {h[n]};
      SubsetCount(Elements(h), Elements(h[..n]) + {h[n]});
    }
  }

  /** Only lines that come after position `k` are more recent than the line there. */
  lemma {:induction false} SinceAfter(h: seq<Line>, k: nat, l: Line)
    requires k < |h| && h[k] == l
    ensures |Since(h, l)| <= |h| - k - 1
  {
    hide Last;
    forall m | m in Since(h, l) ensures m in Elements(h[k + 1..]) {
      assert h[Last(h, m) - 1] == m && Last(h, l) >= k + 1;
      assert h[k + 1..][Last(h, m) - 1 - (k + 1)] == m;
    }
    SubsetCount(Since(h, l), Elements(h[k + 1..]));
    ElementCount(h[k + 1..]);
  }

  /** As long as there are no more accesses than ways, the law holds, whatever the ages are. */
  lemma {:induction false} RoomyLaw(sets: nat, ways: nat, h: seq<Line>, l: Line)
    requires sets > 0 && ways > 0 && LinesIn(h, sets) && l.set_ < sets && |h| <= ways
    ensures LawHolds(sets, ways, h, l)
  {
    hide Row, After, Last, Ticked, Scan, Since;
    HoldsAllRun(sets, ways, h, l.set_);
    var c := After(sets, ways, Touches(h));
    TickedSame(c, l.set_);
    ScanHitsIff(Row(Ticked(c), l.set_), l.tag);
    PackedReachable(Row(Ticked(c), l.set_), Row(c, l.set_), l.tag);
    assert Line(l.set_, l.tag) == l;
    if l in h {
      var k :| 0 <= k < |h| && h[k] == l;
      SinceAfter(h, k, l);
    }
  }

  // ----- beyond both bounds the law fails -----

  lemma {:induction false} AfterTouch(sets: nat, ways: nat, h: seq<Line>, l: Line)
    requires sets > 0 && ways > 0 && LinesIn(h, sets) && l.set_ < sets
    ensures LinesIn(h + [l], sets)
    ensures After(sets, ways, Touches(h + [l])) == Access(After(sets, ways, Touches(h)), l)
  {
    hide Access;
    TouchesAppend(h, l);
    AfterOne(sets, ways, Touches(h), Touch(l));
  }

  /** Tags 0, 1, 2, ... of set 0, each once. */
  function Distinct(n: nat): (h: seq<Line>)
    ensures |h| == n && forall k | 0 <= k < n :: h[k] == Line(0, k)
  {
    seq(n, k requires 0 <= k => Line(0, k))
  }

  /** The first `n` ways were filled one after the other. */
  ghost predicate FilledTo(row: seq<Entry>, n: nat) {
    && n <= |row|
    && (forall k | 0 <= k < n :: row[k] == Entry(true, k, Wrap32(k + 1)))
    && forall k | n <= k < |row| :: !row[k].valid
  }

  lemma {:induction false} FillNext(row: seq<Entry>, n: nat)
    requires FilledTo(row, n) && n < |row|
    ensures Scan(row, n, 0, 0, AGE_MAX) == Fill(n)
    ensures FilledTo(row[n := Entry(true, n, Wrap32(n + 1))], n + 1)
  {
    hide Scan;
    ScanOutcome(row, n, 0, 0, AGE_MAX);
    var o := Scan(row, n, 0, 0, AGE_MAX);
    assert !row[n].valid;
    assert o.Fill? && !row[o.way].valid;
  }

  lemma {:induction false} FillRun(sets: nat, ways: nat, n: nat)
    requires sets > 0 && ways > 0 && n <= ways && ways < U64 - 1
    ensures LinesIn(Distinct(n), sets)
    ensures var c := After(sets, ways, Touches(Distinct(n))); c.tick == n && FilledTo(Row(c, 0), n)
  {
    hide Access, Row, FilledTo, Scan, Ticked;
    if n == 0 {
      assert Touches(Distinct(0)) == [];
      EmptyRow(sets, ways, 0);
      NothingFilled(Row(Empty(sets, ways), 0));
    } else {
      var m := n - 1;
      FillRun(sets, ways, m);
      assert Distinct(n) == Distinct(m) + [Line(0, m)];
      AfterTouch(sets, ways, Distinct(m), Line(0, m));
      var c := After(sets, ways, Touches(Distinct(m)));
      AccessRows(c, Line(0, m), 0);
      FillNext(Row(c, 0), m);
    }
  }

  lemma {:induction false} NothingFilled(row: seq<Entry>)
    requires forall w | 0 <= w < |row| :: !row[w].valid
    ensures FilledTo(row, 0)
  {
  }

  /** All ways are valid, way `k` holds tag `k`, and all but the last have the ages they were filled with. */
  ghost predicate FullUpTo(row: seq<Entry>, t: nat) {
    && |row| >= 2
    && (forall k | 0 <= k < |row| - 1 :: row[k] == Entry(true, k, k + 1))
    && row[|row| - 1] == Entry(true, |row| - 1, t)
  }

  lemma {:induction false} TouchLastWay(row: seq<Entry>, t: nat)
    requires FullUpTo(row, t) && |row| <= t < U32
    ensures Scan(row, |row| - 1, 0, 0, AGE_MAX).way == |row| - 1
  {
    hide Scan;
    ScanOutcome(row, |row| - 1, 0, 0, AGE_MAX);
    var o := Scan(row, |row| - 1, 0, 0, AGE_MAX);
    assert row[|row| - 1].valid;
    assert o.Hit?;
  }

  /** Filling all ways and then touching the last line until `t` accesses have been made. */
  lemma {:induction false} FullRun(sets: nat, ways: nat, t: nat) returns (h: seq<Line>)
    requires sets > 0 && 2 <= ways <= t < U32
    ensures |h| == t && LinesIn(h, sets)
    ensures var c := After(sets, ways, Touches(h)); c.tick == t && FullUpTo(Row(c, 0), t)
    decreases t
  {
    hide Access, Row, FullUpTo, Scan, Ticked;
    if t == ways {
      h := Distinct(ways);
      FillRun(sets, ways, ways);
      FilledIsFull(Row(After(sets, ways, Touches(h)), 0));
    } else {
      var g := FullRun(sets, ways, t - 1);
      var l := Line(0, ways - 1);
      h := g + [l];
      AfterTouch(sets, ways, g, l);
      var c := After(sets, ways, Touches(g));
      AccessRows(c, l, 0);
      TouchLastWay(Row(c, 0), t - 1);
      FullAgain(Row(c, 0), t - 1);
    }
  }

  lemma {:induction false} FilledIsFull(row: seq<Entry>)
    requires FilledTo(row, |row|) && 2 <= |row| < U32
    ensures FullUpTo(row, |row|)
  {
  }

  lemma {:induction false} FullAgain(row: seq<Entry>, t: nat)
    requires FullUpTo(row, t)
    ensures FullUpTo(row[|row| - 1 := Entry(true, |row| - 1, t + 1)], t + 1)
  {
  }

  /** In a full row without the tag, a way of minimal age is replaced. */
  lemma {:induction false} FullMiss(row: seq<Entry>, tag: nat) returns (w: nat)
    requires row != [] && Young(row) && forall k | 0 <= k < |row| :: row[k].valid && row[k].tag != tag
    ensures Scan(row, tag, 0, 0, AGE_MAX) == Fill(w) && w < |row|
    ensures forall k | 0 <= k < |row| :: row[w].age <= row[k].age
  {
    hide Scan;
    ScanOutcome(row, tag, 0, 0, AGE_MAX);
    w := Scan(row, tag, 0, 0, AGE_MAX).way;
  }

  /** Two misses around access 2^32: the second evicts the line of the first. */
  lemma {:induction false} WrapEvicts(c: Cache)
    requires c.Valid() && 2 <= c.ways < U32 && c.tick == U32 - 1 && FullUpTo(Row(c, 0), U32 - 1)
    ensures var x, y := Line(0, c.ways), Line(0, c.ways + 1); !Hits(Access(Access(c, x), y), x)
  {
    hide Row, Scan, Access, Ticked;
    var x, y := Line(0, c.ways), Line(0, c.ways + 1);
    var row := Row(c, 0);
    var v := FullMiss(row, x.tag);
    assert v == 0 by {
      assert row[0].age == 1;
    }
    AccessRows(c, x, 0);
    var row1 := row[0 := Entry(true, x.tag, 0)];
    var u := FullMiss(row1, y.tag);
    assert u == 0;
    AccessRows(Access(c, x), y, 0);
    var row2 := row1[0 := Entry(true, y.tag, 1)];
    assert Row(Access(Access(c, x), y), 0) == row2;
    AccessRows(Access(Access(c, x), y), x, 0);
    ScanHit(row2, x.tag, 0, 0, AGE_MAX);
  }

  lemma {:induction false} FewWaysFail(sets: nat, ways: nat) returns (h: seq<Line>, x: Line)
    requires sets > 0 && 2 <= ways < U32
    ensures |h| == U32 + 1 && LinesIn(h, sets) && x.set_ < sets
    ensures x in h && |Since(h, x)| < ways && !Hits(After(sets, ways, Touches(h)), x)
  {
    hide Row, Access, Since, Hits, FullUpTo;
    var g := FullRun(sets, ways, U32 - 1);
    x := Line(0, ways);
    var y := Line(0, ways + 1);
    h := g + [x] + [y];
    AfterTouch(sets, ways, g, x);
    AfterTouch(sets, ways, g + [x], y);
    WrapEvicts(After(sets, ways, Touches(g)));
    assert h[U32 - 1] == x;
    SinceAfter(h, U32 - 1, x);
  }

  /** In a row of at least 2^32 ways filled once, a line that came at a multiple of 2^32 goes first. */
  lemma {:induction false} ManyWaysEvict(row: seq<Entry>) returns (w: nat)
    requires FilledTo(row, |row|) && |row| >= U32
    ensures 0 < w < |row| && Scan(row, |row|, 0, 0, AGE_MAX) == Fill(w)
  {
    hide Scan;
    assert row[U32 - 1].age == 0;
    assert forall k | 0 <= k < |row| :: row[k].valid && row[k].tag == k;
    w := FullMiss(row, |row|);
    assert row[w].age == 0;
  }

  lemma {:induction false} ManyWaysFail(sets: nat, ways: nat) returns (h: seq<Line>, x: Line)
    requires sets > 0 && U32 <= ways < U64 - 2
    ensures |h| == ways + 1 && LinesIn(h, sets) && x.set_ < sets
    ensures x in h && |Since(h, x)| < ways && !Hits(After(sets, ways, Touches(h)), x)
  {
    hide Row, Access, Since, Scan, Ticked;
    var g := Distinct(ways);
    FillRun(sets, ways, ways);
    var c := After(sets, ways, Touches(g));
    var y := Line(0, ways);
    var w := ManyWaysEvict(Row(c, 0));
    x := Line(0, w);
    h := g + [y];
    AfterTouch(sets, ways, g, y);
    AccessRows(c, y, 0);
    var d := Access(c, y);
    AccessRows(d, x, 0);
    var row := Row(d, 0);
    assert forall k | 0 <= k < |row| :: row[k].tag != w;
    ScanHit(row, w, 0, 0, AGE_MAX);
    assert h[w] == x;
    SinceAfter(h, w, x);
  }

  /** How long the law lasts, exactly: for good with one way, else up to 2^32 accesses or as many as there are ways. */
  lemma {:induction false} LawUpToIff(sets: nat, ways: nat, n: nat)
    requires sets > 0 && 0 < ways < U64 - 2
    ensures LawUpTo(sets, ways, n) <==> ways == 1 || n <= U32 || n <= ways
  {
    hide Since, Hits;
    if ways == 1 || n <= U32 || n <= ways {
      forall h, l: Line | |h| <= n && LinesIn(h, sets) && l.set_ < sets ensures LawHolds(sets, ways, h, l) {
        if ways == 1 {
          OneWayLaw(sets, h, l);
        } else if n <= U32 {
          HitIffRecent(sets, ways, h, l);
        } else {
          RoomyLaw(sets, ways, h, l);
        }
      }
    } else {
      var h, x;
      if ways < U32 {
        h, x := FewWaysFail(sets, ways);
      } else {
        h, x := ManyWaysFail(sets, ways);
      }
      assert !LawHolds(sets, ways, h, x);
    }
  }
}
