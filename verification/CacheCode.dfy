/** The array code of tools/qemu/sf2000-cache-model.c, proved against `CacheModel`. */
module CacheCode {
  import opened CArithmetic
  import opened CacheModel

  /** The state of a set of parallel arrays, as a sequence of entries. */
  ghost function Zip(valid: seq<bool>, tags: seq<nat>, ages: seq<nat>): (es: seq<Entry>)
    requires |valid| == |tags| == |ages|
    ensures |es| == |valid|
  {
    seq(|valid|, i requires 0 <= i < |valid| => Entry(valid[i], tags[i], ages[i]))
  }

  class CacheArrays {
    const sets: nat
    const ways: nat
    /** `1 << line_shift`; dividing by it is the shift, and `% sets` is `& (sets - 1)`. */
    const lineSize: nat
    const tags: array<nat>
    const ages: array<nat>
    const valid: array<bool>
    var tick: nat

    ghost predicate Valid()
      reads this
    {
      && sets > 0 && ways > 0 && lineSize > 0
      && tags.Length == ages.Length == valid.Length == sets * ways
      && tags != ages && tick < U64
    }

    ghost function View(): (c: Cache)
      requires Valid()
      reads this, tags, ages, valid
      ensures c.Valid() && c.sets == sets && c.ways == ways
    {
      Cache(sets, ways, Zip(valid[..], tags[..], ages[..]), tick)
    }

    /** What `cache_init` leaves for a geometry it accepts: zeroed arrays. */
    constructor (sets: nat, ways: nat, lineSize: nat)
      requires sets > 0 && ways > 0 && lineSize > 0
      ensures Valid() && fresh(tags) && fresh(ages) && fresh(valid)
      ensures View() == Empty(sets, ways) && this.lineSize == lineSize
    {
      this.sets, this.ways, this.lineSize, tick := sets, ways, lineSize, 0;
      tags := new nat[sets * ways](_ => 0);
      ages := new nat[sets * ways](_ => 0);
      valid := new bool[sets * ways](_ => false);
    }

    /** The memset of all ages when the 64-bit tick wraps. */
    method AdvanceTick()
      requires Valid()
      modifies this, ages
      ensures Valid() && View() == Ticked(old(View()))
    {
      tick := Wrap64(tick + 1);
      if tick == 0 {
        forall i | 0 <= i < ages.Length {
          ages[i] := 0;
        }
        tick := 1;
      }
    }

    /** The search loop of `cache_access_indexed`: the way that hits, or the way to fill. */
    method Search(set_: nat, tag: nat) returns (outcome: Outcome)
      requires Valid() && set_ < sets
      ensures outcome == Lookup(View(), Line(set_, tag))
    {
      hide Scan;
      RowBounds(sets, ways, set_);
      ghost var row := Row(View(), set_);
      var base := set_ * ways;
      var victim, oldest := 0, AGE_MAX;
      for way := 0 to ways
        invariant 0 <= victim < ways && 0 <= oldest
        invariant Lookup(View(), Line(set_, tag)) == Scan(row, tag, way, victim, oldest)
      {
        var index := base + way;
        assert row[way] == Entry(valid[index], tags[index], ages[index]);
        ScanUnfold(row, tag, way, victim, oldest);
        if valid[index] && tags[index] == tag {
          return Hit(way);
        }
        if !valid[index] {
          return Fill(way);
        }
        if ages[index] < oldest {
          oldest := ages[index];
          victim := way;
        }
      }
      ScanEnd(row, tag, victim, oldest);
      return Fill(victim);
    }

    /** `cache_access_indexed`. */
    method AccessIndexed(tagAddress: nat, indexAddress: nat) returns (hit: bool)
      requires Valid()
      modifies this, tags, ages, valid
      ensures Valid()
      ensures hit <==> Hits(old(View()), LineOf(lineSize, sets, tagAddress, indexAddress))
      ensures View() == Access(old(View()), LineOf(lineSize, sets, tagAddress, indexAddress))
    {
      hide LineOf, Scan, Ticked;
      LineParts(lineSize, sets, tagAddress, indexAddress);
      var set_ := (indexAddress / lineSize) % sets;
      var tag := (tagAddress / lineSize) / sets;
      AdvanceTick();
      ghost var c := View();
      var outcome := Search(set_, tag);
      RowBounds(sets, ways, set_);
      var index := set_ * ways + outcome.way;
      ages[index] := Wrap32(tick);
      if outcome.Fill? {
        tags[index] := tag;
        valid[index] := true;
      } else {
        SearchHit(c, Line(set_, tag));
      }
      assert View().entries == c.entries[index := Entry(true, tag, Wrap32(tick))];
      return outcome.Hit?;
    }

    /** `cache_invalidate_indexed`. */
    method InvalidateIndexed(tagAddress: nat, indexAddress: nat)
      requires Valid()
      modifies ages, valid
      ensures Valid()
      ensures View() == Invalidate(old(View()), LineOf(lineSize, sets, tagAddress, indexAddress))
    {
      hide LineOf;
      ghost var l := LineOf(lineSize, sets, tagAddress, indexAddress);
      var set_ := (indexAddress / lineSize) % sets;
      var tag := (tagAddress / lineSize) / sets;
      assert l == Line(set_, tag) by { LineParts(lineSize, sets, tagAddress, indexAddress); }
      RowBounds(sets, ways, set_);
      var base := set_ * ways;
      for way := 0 to ways
        invariant forall i | 0 <= i < valid.Length ::
          var drop := base <= i < base + way && old(valid[i]) && tags[i] == tag;
          valid[i] == (old(valid[i]) && !drop) && ages[i] == if drop then 0 else old(ages[i])
      {
        var index := base + way;
        if valid[index] && tags[index] == tag {
          valid[index] := false;
          ages[index] := 0;
        }
      }
      assert View().entries == Invalidate(old(View()), l).entries;
    }
  }

  lemma LineParts(lineSize: nat, sets: nat, tagAddress: nat, indexAddress: nat)
    requires lineSize > 0 && sets > 0
    ensures indexAddress / lineSize >= 0 && tagAddress / lineSize >= 0
    ensures LineOf(lineSize, sets, tagAddress, indexAddress) ==
            Line((indexAddress / lineSize) % sets, (tagAddress / lineSize) / sets)
  {
    assert Block(tagAddress, lineSize) >= 0 && Block(indexAddress, lineSize) >= 0;
  }

  lemma ScanUnfold(row: seq<Entry>, tag: nat, way: nat, victim: nat, oldest: nat)
    requires way < |row| && victim < |row|
    ensures Scan(row, tag, way, victim, oldest) ==
            if row[way].valid && row[way].tag == tag then Hit(way)
            else if !row[way].valid then Fill(way)
            else if row[way].age < oldest then Scan(row, tag, way + 1, way, row[way].age)
            else Scan(row, tag, way + 1, victim, oldest)
  {
  }

  lemma ScanEnd(row: seq<Entry>, tag: nat, victim: nat, oldest: nat)
    requires victim < |row|
    ensures Scan(row, tag, |row|, victim, oldest) == Fill(victim)
  {
  }

  lemma SearchHit(c: Cache, l: Line)
    requires c.Valid() && l.set_ < c.sets && Lookup(c, l).Hit?
    ensures l.set_ * c.ways + Lookup(c, l).way < |c.entries|
    ensures var e := c.entries[l.set_ * c.ways + Lookup(c, l).way]; e.valid && e.tag == l.tag
  {
    hide Scan;
    RowBounds(c.sets, c.ways, l.set_);
    ScanHit(Row(c, l.set_), l.tag, 0, 0, AGE_MAX);
  }
}
