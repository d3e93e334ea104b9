/** The open-addressing PC table of tools/qemu/sf2000-cache-model.c. */
module Hotspot {
  import opened Options
  import opened CArithmetic

  type Pc = bv64

  function Hash(pc: Pc, capacity: nat): (h: nat)
    requires capacity > 0
    ensures h < capacity
  {
    ((pc ^ (pc >> 17) ^ (pc >> 31)) as nat) % capacity
  }

  /** Probe number `d` of `pc` looks at this slot. */
  function Position(t: seq<Pc>, pc: Pc, d: nat): (i: nat)
    requires t != []
    ensures i < |t|
  {
    (Hash(pc, |t|) + d) % |t|
  }

  /** The first probe from `d` on that finds `pc` or a free slot; `|t|` when there is none. */
  function FirstProbe(t: seq<Pc>, pc: Pc, d: nat): (e: nat)
    requires t != [] && d <= |t|
    ensures d <= e <= |t|
    ensures forall k | d <= k < e :: t[Position(t, pc, k)] != pc && t[Position(t, pc, k)] != 0
    ensures e < |t| ==> t[Position(t, pc, e)] == pc || t[Position(t, pc, e)] == 0
    decreases |t| - d
  {
    if d == |t| || t[Position(t, pc, d)] == pc || t[Position(t, pc, d)] == 0 then d
    else FirstProbe(t, pc, d + 1)
  }

  /** The slot `hotspot_lookup` returns. */
  function Slot(t: seq<Pc>, pc: Pc): (s: Option<nat>)
    requires t != []
    ensures s.Some? ==> s.value < |t| && (t[s.value] == pc || t[s.value] == 0)
  {
    var e := FirstProbe(t, pc, 0);
    if e == |t| then None else Some(Position(t, pc, e))
  }

  /** The table afterwards: a free slot is claimed. */
  function Insert(t: seq<Pc>, pc: Pc): (u: seq<Pc>)
    requires t != []
    ensures |u| == |t|
  {
    match Slot(t, pc)
    case None => t
    case Some(i) => t[i := pc]
  }

  /** Every stored PC is found exactly where it is stored. */
  predicate Findable(t: seq<Pc>) {
    forall i | 0 <= i < |t| && t[i] != 0 :: Slot(t, t[i]) == Some(i)
  }

  /** Filling a free slot moves no probe that ended earlier or elsewhere. */
  lemma {:induction false} ProbeStable(t: seq<Pc>, i: nat, pc: Pc, q: Pc)
    requires t != [] && i < |t| && t[i] == 0
    requires var e := FirstProbe(t, q, 0);
             && e < |t|
             && ((t[Position(t, q, e)] == q && q != 0) || (Position(t, q, e) == i && q == pc))
    ensures Slot(t[i := pc], q) == Slot(t, q)
  {
    hide Hash, Position;
    var u := t[i := pc];
    var e := FirstProbe(t, q, 0);
    forall k | 0 <= k <= e
      ensures Position(u, q, k) == Position(t, q, k)
    {
      SamePosition(t, u, q, k);
    }
    ProbeIs(u, q, e, 0);
  }

  /** Bits 17 and 31 of a PC are folded into its low bits. */
  lemma {:induction false} HashFolds(capacity: nat)
    requires capacity > 0
    ensures Hash(0x1_2344, capacity) == 0x1_2344 % capacity
    ensures Hash(0x2_0000, capacity) == 0x2_0001 % capacity
    ensures Hash(0x8000_0000, capacity) == 0x8000_4001 % capacity
  {
  }

  lemma SamePosition(t: seq<Pc>, u: seq<Pc>, pc: Pc, d: nat)
    requires t != [] && |u| == |t|
    ensures Position(u, pc, d) == Position(t, pc, d)
  {
    hide Hash;
  }

  /** The first matching probe is determined by what the probes see. */
  lemma {:induction false} ProbeIs(t: seq<Pc>, pc: Pc, e: nat, d: nat)
    requires t != [] && d <= e < |t|
    requires forall k | d <= k < e :: t[Position(t, pc, k)] != pc && t[Position(t, pc, k)] != 0
    requires t[Position(t, pc, e)] == pc || t[Position(t, pc, e)] == 0
    ensures FirstProbe(t, pc, d) == e
    decreases e - d
  {
    hide Position;
    if d < e {
      ProbeIs(t, pc, e, d + 1);
    }
  }

  lemma {:induction false} InsertFindable(t: seq<Pc>, pc: Pc)
    requires t != [] && Findable(t)
    ensures Findable(Insert(t, pc))
    ensures forall i | 0 <= i < |t| && t[i] != 0 :: Insert(t, pc)[i] == t[i]
  {
    var u := Insert(t, pc);
    if pc != 0 && Slot(t, pc).Some? && t[Slot(t, pc).value] == 0 {
      var i := Slot(t, pc).value;
      forall j | 0 <= j < |u| && u[j] != 0
        ensures Slot(u, u[j]) == Some(j)
      {
        ProbeStable(t, i, pc, u[j]);
      }
    } else {
      assert u == t;
    }
  }

  // ----- runs of lookups -----

  /** The table after looking up `pcs` in a zeroed table. */
  function Table(capacity: nat, pcs: seq<Pc>): (t: seq<Pc>)
    requires capacity > 0
    ensures |t| == capacity
  {
    if pcs == [] then seq(capacity, _ => 0)
    else Insert(Table(capacity, pcs[..|pcs| - 1]), pcs[|pcs| - 1])
  }

  /** The answer to lookup number `k` of the run. */
  function Answer(capacity: nat, pcs: seq<Pc>, k: nat): Option<nat>
    requires capacity > 0 && k < |pcs|
  {
    Slot(Table(capacity, pcs[..k]), pcs[k])
  }

  lemma {:induction false} TableFindable(capacity: nat, pcs: seq<Pc>)
    requires capacity > 0
    ensures Findable(Table(capacity, pcs))
    decreases |pcs|
  {
    if pcs != [] {
      TableFindable(capacity, pcs[..|pcs| - 1]);
      InsertFindable(Table(capacity, pcs[..|pcs| - 1]), pcs[|pcs| - 1]);
    }
  }

  lemma InsertClaims(t: seq<Pc>, pc: Pc)
    requires t != [] && Slot(t, pc).Some?
    ensures Slot(t, pc).value < |t| && Insert(t, pc)[Slot(t, pc).value] == pc
  {
    hide FirstProbe, Position;
  }

  /** A claimed slot keeps its PC for the rest of the run. */
  lemma {:induction false} SlotKept(capacity: nat, pcs: seq<Pc>, k: nat, m: nat)
    requires capacity > 0 && k < m <= |pcs| && pcs[k] != 0
    requires Answer(capacity, pcs, k).Some?
    ensures Table(capacity, pcs[..m])[Answer(capacity, pcs, k).value] == pcs[k]
    decreases m
  {
    hide Slot, Insert, Findable;
    var i := Answer(capacity, pcs, k).value;
    InsertClaims(Table(capacity, pcs[..k]), pcs[k]);
    assert pcs[..m][..m - 1] == pcs[..m - 1] && pcs[..m][m - 1] == pcs[m - 1];
    if m > k + 1 {
      SlotKept(capacity, pcs, k, m - 1);
      TableFindable(capacity, pcs[..m - 1]);
      InsertFindable(Table(capacity, pcs[..m - 1]), pcs[m - 1]);
    }
  }

  /**
   The table is a map: in every run of lookups, a later lookup gets the slot of an earlier one
   exactly when it asks for the same PC. Lookups of PC 0 may come in between.
   */
  lemma {:induction false} SlotsIdentifyPcs(capacity: nat, pcs: seq<Pc>, k: nat, m: nat)
    requires capacity > 0 && k < m < |pcs| && pcs[k] != 0
    requires Answer(capacity, pcs, k).Some?
    ensures pcs[k] == pcs[m] ==> Answer(capacity, pcs, m) == Answer(capacity, pcs, k)
    ensures pcs[k] != pcs[m] ==> Answer(capacity, pcs, m) != Answer(capacity, pcs, k)
  {
    var i := Answer(capacity, pcs, k).value;
    var t := Table(capacity, pcs[..m]);
    SlotKept(capacity, pcs, k, m);
    TableFindable(capacity, pcs[..m]);
    assert Slot(t, t[i]) == Some(i);
  }

  lemma {:induction false} ProbesCover(n: nat, h: nat, i: nat) returns (d: nat)
    requires h < n && i < n
    ensures d < n && (h + d) % n == i
  {
    d := if i >= h then i - h else i + n - h;
    if i < h {
      assert (i + n) % n == i;
    }
  }

  /** A lookup fails exactly when the whole table is taken by other PCs. */
  lemma {:induction false} FailsIffFull(t: seq<Pc>, pc: Pc)
    requires t != []
    ensures Slot(t, pc) == None <==> forall i | 0 <= i < |t| :: t[i] != 0 && t[i] != pc
  {
    if Slot(t, pc) == None {
      forall i | 0 <= i < |t|
        ensures t[i] != 0 && t[i] != pc
      {
        var d := ProbesCover(|t|, Hash(pc, |t|), i);
        assert Position(t, pc, d) == i;
      }
    }
  }

  /** PC 0 is no key: it is given a free slot that the next lookup may claim for another PC. */
  lemma ZeroPcSharesSlot(pc: Pc)
    requires pc != 0
    ensures Slot(Table(1, []), 0) == Some(0) && Insert(Table(1, []), 0) == Table(1, [])
    ensures Slot(Table(1, [0]), pc) == Some(0)
  {
    var t := Table(1, []);
    assert t == [0];
    assert FirstProbe(t, 0, 0) == 0 && FirstProbe(t, pc, 0) == 0;
    assert [0][..0] == [];
    assert Table(1, [0]) == t;
  }

  class HotTable {
    const table: array?<Pc>

    /** `None` is the unallocated table. */
    function Contents(): Option<seq<Pc>>
      reads table
    {
      if table == null then None else Some(table[..])
    }

    constructor (capacity: nat)
      ensures capacity == 0 ==> Contents() == None
      ensures capacity > 0 ==> fresh(table) && Contents() == Some(Table(capacity, []))
    {
      if capacity == 0 {
        table := null;
      } else {
        table := new Pc[capacity](_ => 0);
      }
      new;
      assert table != null ==> table[..] == Table(capacity, []);
    }

    /** `hotspot_lookup`: the index of the entry, or `None` for NULL. */
    method Lookup(pc: Pc) returns (slot: Option<nat>)
      requires table != null ==> table.Length > 0
      modifies table
      ensures table == null ==> slot == None
      ensures table != null ==>
        slot == Slot(old(table[..]), pc) && table[..] == Insert(old(table[..]), pc)
    {
      if table == null {
        return None;
      }
      hide Hash, Position;
      ghost var t := table[..];
      PositionZero(t, pc);
      var index := Hash(pc, table.Length);
      var probes := 0;
      while probes < table.Length
        invariant 0 <= probes <= table.Length && index == Position(t, pc, probes)
        invariant FirstProbe(t, pc, 0) == FirstProbe(t, pc, probes)
        invariant table[..] == t
      {
        if table[index] == pc {
          return Some(index);
        }
        if table[index] == 0 {
          table[index] := pc;
          return Some(index);
        }
        PositionNext(t, pc, probes);
        index := (index + 1) % table.Length;
        probes := probes + 1;
      }
      return None;
    }
  }

  lemma PositionZero(t: seq<Pc>, pc: Pc)
    requires t != []
    ensures Position(t, pc, 0) == Hash(pc, |t|)
  {
    hide Hash;
  }

  lemma PositionNext(t: seq<Pc>, pc: Pc, d: nat)
    requires t != []
    ensures Position(t, pc, d + 1) == (Position(t, pc, d) + 1) % |t|
  {
    hide Hash;
    var n, h := |t|, Hash(pc, |t|);
    var q, r := (h + d) / n, (h + d) % n;
    var q', r' := (r + 1) / n, (r + 1) % n;
    assert h + (d + 1) == (q + q') * n + r';
    DivModUnique(h + (d + 1), n, q + q', r');
  }
}
