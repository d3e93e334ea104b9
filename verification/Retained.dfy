/**
 The retained progress ring: written by one boot, read by the next. `hc15xx_retained_mark`
 (platform/hc15xx_retained.c) and the loader (boot/linux-loader.c) reset the write index right
 after filling the last slot; the screen service (userspace/sf2000-screen.c) resets it before
 its next mark.
 */
module Retained {
  import opened CArithmetic

  const ENTRIES := 1024
  const NAME_LEN := 32

  datatype Entry = Entry(seqNo: int, kind: int, value: int, namePtr: int, name: seq<char>)

  datatype Log = Log(seqNo: int, writeIndex: nat, wrapped: bool, slots: seq<Entry>)

  /** A mark, by the wrap convention of its writer; the sequence number in it is not used. */
  datatype Op = Eager(entry: Entry) | Lazy(entry: Entry)

  function Step(l: Log, op: Op): Log
    requires |l.slots| == ENTRIES
  {
    var index := if l.writeIndex >= ENTRIES then 0 else l.writeIndex;
    var seqNo := Wrap32(l.seqNo + 1);
    var slots := l.slots[index := op.entry.(seqNo := seqNo)];
    match op
    case Eager(_) =>
      if index + 1 >= ENTRIES then Log(seqNo, 0, true, slots) else Log(seqNo, index + 1, l.wrapped, slots)
    case Lazy(_) =>
      Log(seqNo, index + 1, l.wrapped || l.writeIndex >= ENTRIES, slots)
  }

  function Run(l: Log, ops: seq<Op>): (r: Log)
    requires |l.slots| == ENTRIES
    ensures |r.slots| == ENTRIES
    decreases |ops|
  {
    if ops == [] then l else Step(Run(l, ops[..|ops| - 1]), ops[|ops| - 1])
  }

  /** A ring that has just been reset; the names in it may be left over. */
  predicate Fresh(l: Log) {
    && l.seqNo == 0 && l.writeIndex == 0 && !l.wrapped && |l.slots| == ENTRIES
    && forall i | 0 <= i < ENTRIES :: l.slots[i].seqNo == 0
  }

  /** Mark `k` of the run as it stands in the ring. */
  function Stored(ops: seq<Op>, k: nat): Entry
    requires k < |ops|
  {
    ops[k].entry.(seqNo := k + 1)
  }

  /** Number of the oldest mark still in the ring. */
  function Oldest(n: nat): nat {
    if n < ENTRIES then 0 else n - ENTRIES
  }

  /** Mark `k` is in slot `k % 1024`, for each of the last 1024 marks; the other slots are unused. */
  ghost predicate SlotsHold(slots: seq<Entry>, ops: seq<Op>) {
    && |slots| == ENTRIES
    && (forall k | Oldest(|ops|) <= k < |ops| :: slots[k % ENTRIES] == Stored(ops, k))
    && (forall i | |ops| <= i < ENTRIES :: slots[i].seqNo == 0)
  }

  ghost predicate HeaderHolds(l: Log, n: nat) {
    && l.seqNo == n && l.writeIndex <= n && l.writeIndex <= ENTRIES
    && l.writeIndex % ENTRIES == n % ENTRIES
    && (l.wrapped ==> n >= ENTRIES)
    && (l.writeIndex == 0 ==> n == 0 || l.wrapped)
  }

  lemma {:induction false} SameSlot(k: nat, n: nat)
    requires Oldest(n) <= k <= n && k % ENTRIES == n % ENTRIES
    ensures k == n || k == n - ENTRIES
  {
  }

  lemma {:induction false} SlotsStep(slots: seq<Entry>, ops: seq<Op>, op: Op)
    requires SlotsHold(slots, ops)
    ensures SlotsHold(slots[|ops| % ENTRIES := op.entry.(seqNo := |ops| + 1)], ops + [op])
  {
    var n, all := |ops|, ops + [op];
    var slots' := slots[n % ENTRIES := op.entry.(seqNo := n + 1)];
    forall k | Oldest(n + 1) <= k < n + 1 ensures slots'[k % ENTRIES] == Stored(all, k) {
      if k < n && k % ENTRIES == n % ENTRIES {
        SameSlot(k, n);
      }
      assert k < n ==> Stored(all, k) == Stored(ops, k);
    }
  }

  lemma {:induction false} HeaderStep(l: Log, op: Op, n: nat)
    requires |l.slots| == ENTRIES && HeaderHolds(l, n) && n + 1 < U32
    ensures HeaderHolds(Step(l, op), n + 1)
    ensures Step(l, op).slots == l.slots[n % ENTRIES := op.entry.(seqNo := n + 1)]
  {
  }

  /** Whatever mix of writers ran, every mark is where its number says. */
  lemma {:induction false} RunHolds(l: Log, ops: seq<Op>)
    requires Fresh(l) && |ops| < U32
    ensures SlotsHold(Run(l, ops).slots, ops) && HeaderHolds(Run(l, ops), |ops|)
    decreases |ops|
  {
    hide SlotsHold, HeaderHolds, Step;
    if ops == [] {
      FreshHolds(l);
    } else {
      var n := |ops| - 1;
      RunHolds(l, ops[..n]);
      HeaderStep(Run(l, ops[..n]), ops[n], n);
      SlotsStep(Run(l, ops[..n]).slots, ops[..n], ops[n]);
      assert ops[..n] + [ops[n]] == ops;
    }
  }

  lemma {:induction false} FreshHolds(l: Log)
    requires Fresh(l)
    ensures SlotsHold(l.slots, []) && HeaderHolds(l, 0)
  {
  }

  // ----- the dump of the next boot -----

  /** The entries `bootlog_dump_previous_progress` visits, once the header is accepted. */
  function Dumped(l: Log): seq<Entry>
    requires |l.slots| == ENTRIES
  {
    var count := if l.wrapped then ENTRIES else if l.writeIndex > ENTRIES then ENTRIES else l.writeIndex;
    var start := if l.wrapped then (if l.writeIndex >= ENTRIES then 0 else l.writeIndex) else 0;
    seq(count, i requires 0 <= i => l.slots[(start + i) % ENTRIES])
  }

  /** The last marks of a run, as many as the ring holds, oldest first. */
  function Latest(ops: seq<Op>): seq<Entry> {
    var from := Oldest(|ops|);
    seq(|ops| - from, i requires 0 <= i < |ops| - from => Stored(ops, from + i))
  }

  lemma {:induction false} AheadSlot(n: nat, start: nat, i: nat)
    requires n >= ENTRIES && start % ENTRIES == n % ENTRIES
    ensures (start + i) % ENTRIES == (n - ENTRIES + i) % ENTRIES
  {
    var q := start / ENTRIES - (n - ENTRIES) / ENTRIES;
    assert start == n - ENTRIES + q * ENTRIES;
    ModShift(n - ENTRIES + i, q);
  }

  lemma {:induction false} ModShift(x: nat, q: int)
    requires x + q * ENTRIES >= 0
    ensures (x + q * ENTRIES) % ENTRIES == x % ENTRIES
  {
    DivModUnique(x + q * ENTRIES, ENTRIES, x / ENTRIES + q, x % ENTRIES);
  }

  /** The dump is the latest marks in order, exactly under a condition on the header. */
  lemma {:induction false} DumpedIsLatestIff(l: Log, ops: seq<Op>)
    requires SlotsHold(l.slots, ops) && HeaderHolds(l, |ops|)
    ensures Dumped(l) == Latest(ops) <==> l.wrapped || l.writeIndex == l.seqNo || l.writeIndex == ENTRIES
  {
    var n := |ops|;
    var d, latest := Dumped(l), Latest(ops);
    if l.wrapped || (l.writeIndex == ENTRIES && n >= ENTRIES) {
      var start := if l.writeIndex >= ENTRIES then 0 else l.writeIndex;
      forall i | 0 <= i < ENTRIES ensures d[i] == latest[i] {
        AheadSlot(n, start, i);
        assert d[i] == l.slots[(n - ENTRIES + i) % ENTRIES];
      }
      assert d == latest;
    } else if l.writeIndex == l.seqNo {
      assert d == latest;
    } else {
      assert |d| < |latest|;
    }
  }

  /** The wrap at the end of the round of `m` marks was recorded: by the writer that filled the
      last slot, or by the one after it. */
  predicate WrapRecordedAt(ops: seq<Op>, m: nat) {
    && 0 < m <= |ops| && m % ENTRIES == 0
    && (ops[m - 1].Eager? || (m < |ops| && ops[m].Lazy?))
  }

  ghost predicate WrapRecorded(ops: seq<Op>) {
    exists m :: WrapRecordedAt(ops, m)
  }

  lemma {:induction false} WrapRecordedStep(ops: seq<Op>, op: Op)
    ensures WrapRecorded(ops + [op]) <==>
            WrapRecorded(ops) || (op.Eager? && (|ops| + 1) % ENTRIES == 0) ||
            (op.Lazy? && |ops| > 0 && |ops| % ENTRIES == 0)
  {
    var n, all := |ops|, ops + [op];
    if WrapRecorded(all) {
      var m: nat :| WrapRecordedAt(all, m);
      assert m < n ==> WrapRecordedAt(ops, m);
      assert m == n && ops[n - 1].Eager? ==> WrapRecordedAt(ops, m);
    }
    if WrapRecorded(ops) {
      var m: nat :| WrapRecordedAt(ops, m);
      assert WrapRecordedAt(all, m);
    }
    assert op.Eager? && (n + 1) % ENTRIES == 0 ==> WrapRecordedAt(all, n + 1);
    assert op.Lazy? && n > 0 && n % ENTRIES == 0 ==> WrapRecordedAt(all, n);
  }

  lemma {:induction false} WrappedStep(l: Log, op: Op, n: nat)
    requires |l.slots| == ENTRIES && HeaderHolds(l, n)
    ensures Step(l, op).wrapped <==>
            l.wrapped || (op.Eager? && (n + 1) % ENTRIES == 0) || (op.Lazy? && n > 0 && n % ENTRIES == 0)
  {
  }

  /** Whether the header says "wrapped", read off the run. */
  lemma {:induction false} WrappedIff(l: Log, ops: seq<Op>)
    requires Fresh(l) && |ops| < U32
    ensures Run(l, ops).wrapped <==> WrapRecorded(ops)
    decreases |ops|
  {
    hide SlotsHold, WrapRecorded, HeaderHolds, Step;
    if ops == [] {
      NothingRecorded();
    } else {
      var n := |ops| - 1;
      WrappedIff(l, ops[..n]);
      RunHolds(l, ops[..n]);
      WrappedStep(Run(l, ops[..n]), ops[n], n);
      WrapRecordedStep(ops[..n], ops[n]);
      assert ops[..n] + [ops[n]] == ops;
    }
  }

  lemma {:induction false} NothingRecorded()
    ensures !WrapRecorded([])
  {
  }

  /**
   After any run of marks by any mix of writers, the dump shows exactly the last
   min(n, 1024) marks in order, unless a later round is in progress and no wrap before it was
   recorded: every last slot so far was filled lazily and followed by an eager mark.
   */
  lemma {:induction false} DumpCompleteIff(l: Log, ops: seq<Op>)
    requires Fresh(l) && |ops| < U32
    ensures Dumped(Run(l, ops)) == Latest(ops) <==>
            |ops| <= ENTRIES || |ops| % ENTRIES == 0 || WrapRecorded(ops)
  {
    hide SlotsHold, WrapRecorded, Dumped, Latest, Run;
    RunHolds(l, ops);
    WrappedIff(l, ops);
    DumpedIsLatestIff(Run(l, ops), ops);
  }

  /** With one wrap convention throughout, or the lazy writers first recording the wrap, the dump is complete. */
  lemma {:induction false} OneConventionIsComplete(l: Log, ops: seq<Op>)
    requires Fresh(l) && |ops| < U32
    requires |ops| > ENTRIES ==> ops[ENTRIES - 1].Eager? || ops[ENTRIES].Lazy?
    ensures Dumped(Run(l, ops)) == Latest(ops)
  {
    hide Dumped, Latest, Run;
    DumpCompleteIff(l, ops);
    if |ops| > ENTRIES {
      assert WrapRecordedAt(ops, ENTRIES);
    }
  }

  /** The excluded mix loses marks: 1024 lazy marks and an eager one leave a dump of a single entry. */
  lemma {:induction false} LazyThenEagerLosesMarks(l: Log, e: Entry)
    requires Fresh(l)
    ensures var ops := seq(ENTRIES, _ => Lazy(e)) + [Eager(e)];
            |Dumped(Run(l, ops))| == 1 && |Latest(ops)| == ENTRIES
  {
    hide SlotsHold, WrapRecorded;
    var lazies := seq(ENTRIES, _ => Lazy(e));
    var ops := lazies + [Eager(e)];
    assert ops[..ENTRIES] == lazies;
    RunHolds(l, lazies);
    WrappedIff(l, lazies);
    if WrapRecorded(lazies) {
      NoneEager(lazies);
    }
  }

  lemma {:induction false} NoneEager(ops: seq<Op>)
    requires |ops| == ENTRIES && forall i | 0 <= i < |ops| :: ops[i].Lazy?
    ensures !WrapRecorded(ops)
  {
    forall m: nat ensures !WrapRecordedAt(ops, m) {
      assert m == ENTRIES ==> ops[m - 1].Lazy?;
    }
  }

  // ----- names -----

  const HANDOFF := "linux-bootloader-handoff"

  /** A C string: no character in it ends it. */
  predicate IsText(name: string) {
    '\0' !in name
  }

  /** The first 31 characters. */
  function Cut(name: string): string {
    if |name| < NAME_LEN then name else name[..NAME_LEN - 1]
  }

  /** The stored name holds the text, cut to 31 characters, and a terminator. */
  predicate HoldsText(stored: seq<char>, name: string) {
    |stored| == NAME_LEN && Cut(name) <= stored && stored[|Cut(name)|] == '\0'
  }

  /** `memcmp(name, "linux-bootloader-handoff", 24) == 0`. */
  predicate Matches(e: Entry) {
    |e.name| == NAME_LEN && e.name[..24] == HANDOFF
  }

  /** The comparison tells whether the mark's own name begins so, whatever follows the terminator. */
  lemma {:induction false} MatchesIff(e: Entry, name: string)
    requires IsText(name) && HoldsText(e.name, name)
    ensures Matches(e) <==> HANDOFF <= name
  {
    var c := Cut(name);
    assert e.name[..|c|] == c;
    if |c| < 24 {
      assert e.name[..24][|c|] == '\0' && HANDOFF[|c|] != '\0';
    } else {
      assert e.name[..24] == c[..24] == name[..24];
    }
  }

  // ----- the search for the newest handoff mark -----

  /** `best` is the highest sequence number of a matching entry, `value` its value; 0 if there is none. */
  ghost predicate IsBest(slots: seq<Entry>, best: int, value: int) {
    && (forall i | 0 <= i < |slots| && Matches(slots[i]) :: slots[i].seqNo <= best)
    && best >= 0
    && (best == 0 ==> value == 0)
    && (best > 0 ==> exists i :: 0 <= i < |slots| && Matches(slots[i]) && slots[i].seqNo == best && slots[i].value == value)
  }

  /** The number of the mark that slot `i` holds after `n` marks. */
  function Owner(n: nat, i: nat): (k: int)
    requires i < ENTRIES && i < n
    ensures Oldest(n) <= k < n && k % ENTRIES == i
  {
    var from := Oldest(n);
    var k := from + (i - from) % ENTRIES;
    OwnerSlot(from, i);
    k
  }

  lemma {:induction false} OwnerSlot(from: nat, i: nat)
    requires i < ENTRIES
    ensures (from + (i - from) % ENTRIES) % ENTRIES == i
  {
    var q := (i - from) / ENTRIES;
    assert from + (i - from) % ENTRIES == i + -q * ENTRIES;
    ModShift(i, -q);
  }

  /** The newest matching mark that the ring still holds; -1 if there is none. */
  ghost predicate IsNewest(ops: seq<Op>, k: int) {
    && -1 <= k < |ops|
    && (k >= 0 ==> Oldest(|ops|) <= k && Matches(ops[k].entry))
    && forall j | Oldest(|ops|) <= j < |ops| && Matches(ops[j].entry) :: j <= k
  }

  /** Highest sequence number means newest mark, after every run. */
  lemma {:induction false} BestIsNewest(slots: seq<Entry>, ops: seq<Op>, best: int, value: int)
    requires SlotsHold(slots, ops) && IsBest(slots, best, value)
    ensures IsNewest(ops, best - 1)
    ensures value == if best > 0 then ops[best - 1].entry.value else 0
  {
    hide Matches;
    var n := |ops|;
    forall j | Oldest(n) <= j < n && Matches(ops[j].entry) ensures j <= best - 1 {
      assert slots[j % ENTRIES] == Stored(ops, j);
      SameNameMatches(ops[j].entry, j + 1);
    }
    if best > 0 {
      var i :| 0 <= i < |slots| && Matches(slots[i]) && slots[i].seqNo == best && slots[i].value == value;
      assert i < n;
      var k := Owner(n, i);
      assert slots[k % ENTRIES] == Stored(ops, k);
      SameNameMatches(ops[k].entry, k + 1);
    }
  }

  lemma {:induction false} SameNameMatches(e: Entry, seqNo: int)
    ensures Matches(e.(seqNo := seqNo)) == Matches(e)
  {
  }

  // ----- the code -----

  const MAGIC := 0x5250_4653
  const VERSION := 1

  /** `src` over `dst`, then zeros to the end. */
  method CopyNameZeroFilled(dst: seq<char>, src: string) returns (r: seq<char>)
    requires |dst| == NAME_LEN
    ensures HoldsText(r, src)
  {
    r := dst;
    var i := 0;
    while i + 1 < NAME_LEN && i < |src|
      invariant 0 <= i <= |Cut(src)| && |r| == NAME_LEN && r[..i] == Cut(src)[..i]
    {
      r := r[i := src[i]];
      i := i + 1;
    }
    ghost var c := i;
    while i < NAME_LEN
      invariant c <= i <= NAME_LEN && |r| == NAME_LEN && r[..c] == Cut(src)
      invariant forall k | c <= k < i :: r[k] == '\0'
    {
      r := r[i := '\0'];
      i := i + 1;
    }
  }

  /** The loader's copy: only a terminator follows, older characters stay behind it. */
  method CopyNameTerminated(dst: seq<char>, src: string) returns (r: seq<char>)
    requires |dst| == NAME_LEN
    ensures HoldsText(r, src)
    ensures r[|Cut(src)| + 1..] == dst[|Cut(src)| + 1..]
  {
    r := dst;
    var i := 0;
    while i + 1 < NAME_LEN && i < |src|
      invariant 0 <= i <= |Cut(src)| && |r| == NAME_LEN && r[..i] == Cut(src)[..i] && r[i..] == dst[i..]
    {
      r := r[i := src[i]];
      i := i + 1;
    }
    r := r[i := '\0'];
  }

  /** The entry holds this mark under this name. */
  predicate IsMark(e: Entry, name: string, kind: int, value: int) {
    e.kind == kind && e.value == value && HoldsText(e.name, name)
  }

  class RetainedLog {
    var magic: int
    var version: int
    var seqNo: int
    var writeIndex: nat
    var wrapped: int
    const entries: array<Entry>

    constructor (entries: array<Entry>)
      requires entries.Length == ENTRIES && forall i | 0 <= i < ENTRIES :: |entries[i].name| == NAME_LEN
      ensures this.entries == entries && Valid() && !Recognised()
    {
      this.entries := entries;
      magic, version, seqNo, writeIndex, wrapped := 0, 0, 0, 0, 0;
    }

    ghost predicate Valid()
      reads this, entries
    {
      entries.Length == ENTRIES && forall i | 0 <= i < ENTRIES :: |entries[i].name| == NAME_LEN
    }

    predicate Recognised()
      reads this
    {
      magic == MAGIC && version == VERSION
    }

    ghost function View(): Log
      reads this, entries
    {
      Log(seqNo, writeIndex, wrapped != 0, entries[..])
    }

    /** `progress_reset`. */
    method Reset()
      requires Valid()
      modifies this, entries
      ensures Valid() && Recognised() && Fresh(View())
    {
      magic, version, seqNo, writeIndex, wrapped := MAGIC, VERSION, 0, 0, 0;
      for i := 0 to ENTRIES
        invariant Valid() && Recognised() && seqNo == 0 && writeIndex == 0 && wrapped == 0
        invariant forall k | 0 <= k < i :: entries[k].seqNo == 0
      {
        entries[i] := Entry(0, 0, 0, 0, entries[i].name[0 := '\0']);
      }
    }

    /** `hc15xx_retained_mark` and the loader's `progress_mark`, which differ in how they copy the name. */
    method EagerMark(name: string, kind: int, value: int, namePtr: int, zeroFill: bool) returns (ret: int, ghost e: Entry)
      requires Valid()
      modifies this, entries
      ensures Valid() && Recognised() == old(Recognised())
      ensures ret == if old(Recognised()) then 0 else -1
      ensures ret != 0 ==> View() == old(View())
      ensures ret == 0 ==> IsMark(e, name, kind, value) && View() == Step(old(View()), Eager(e))
    {
      e := Entry(0, 0, 0, 0, []);
      if !Recognised() {
        ret := -1;
        return;
      }
      var index := writeIndex;
      if index >= ENTRIES {
        index := 0;
      }
      var next := Wrap32(seqNo + 1);
      var stored;
      if zeroFill {
        stored := CopyNameZeroFilled(entries[index].name, name);
      } else {
        stored := CopyNameTerminated(entries[index].name, name);
      }
      entries[index] := Entry(next, kind, value, namePtr, stored);
      e := entries[index];
      index := index + 1;
      if index >= ENTRIES {
        index := 0;
        wrapped := 1;
      }
      writeIndex := index;
      seqNo := next;
      ret := 0;
    }

    /** The screen service's `progress_mark`: starts a new ring where there is none. */
    method LazyMark(name: string, kind: int, value: int, namePtr: int) returns (ghost before: Log, ghost e: Entry)
      requires Valid()
      modifies this, entries
      ensures Valid() && Recognised()
      ensures |before.slots| == ENTRIES
      ensures if old(Recognised()) then before == old(View()) else Fresh(before)
      ensures IsMark(e, name, kind, value) && View() == Step(before, Lazy(e))
    {
      if !Recognised() {
        Clear();
        magic, version := MAGIC, VERSION;
      }
      before := View();
      var next := Wrap32(seqNo + 1);
      var index := writeIndex;
      if index >= ENTRIES {
        index := 0;
        wrapped := 1;
      }
      var stored := CopyNameZeroFilled(entries[index].name, name);
      entries[index] := Entry(next, kind, value, namePtr, stored);
      e := entries[index];
      writeIndex := index + 1;
      seqNo := next;
    }

    /** `memset(log, 0, sizeof *log)`. */
    method Clear()
      requires Valid()
      modifies this, entries
      ensures Valid() && Fresh(View())
    {
      magic, version, seqNo, writeIndex, wrapped := 0, 0, 0, 0, 0;
      forall i | 0 <= i < ENTRIES {
        entries[i] := Entry(0, 0, 0, 0, seq(NAME_LEN, _ => '\0'));
      }
    }

    /** The walk of `bootlog_dump_previous_progress`: the entries it prints. */
    method DumpPrevious() returns (usable: bool, shown: seq<Entry>)
      requires Valid()
      ensures usable == (version == VERSION && seqNo != 0 && writeIndex <= ENTRIES && wrapped <= 1 &&
                         (magic == MAGIC || magic == 0))
      ensures shown == if usable then Dumped(View()) else []
    {
      shown := [];
      usable := version == VERSION && seqNo != 0 && writeIndex <= ENTRIES && wrapped <= 1 &&
                (magic == MAGIC || magic == 0);
      if !usable {
        return;
      }
      var count := if wrapped != 0 then ENTRIES else writeIndex;
      if count > ENTRIES {
        count := ENTRIES;
      }
      var start := if wrapped != 0 then writeIndex else 0;
      if start >= ENTRIES {
        start := 0;
      }
      for i := 0 to count
        invariant shown == Dumped(View())[..i]
      {
        shown := shown + [entries[(start + i) % ENTRIES]];
      }
    }

    /** The search of `detect_bootloader_handoff`. */
    method FindHandoff() returns (best: int, handoff: bool, value: int)
      requires Valid() && Recognised()
      ensures IsBest(View().slots, best, value) && handoff == (value != 0)
    {
      best, handoff, value := 0, false, 0;
      for i := 0 to ENTRIES
        invariant IsBest(entries[..i], best, value) && handoff == (value != 0)
      {
        ghost var before := entries[..i];
        if entries[i].name[..24] == HANDOFF && entries[i].seqNo > best {
          best := entries[i].seqNo;
          handoff := entries[i].value != 0;
          value := entries[i].value;
        }
        BestStep(before, entries[i]);
      }
      assert entries[..ENTRIES] == entries[..];
    }

    /** `detect_bootloader_handoff`: the answer of the newest retained handoff mark; leaves a mark of its own. */
    method DetectHandoff(ghost ops: seq<Op>, namePtr: int) returns (handoff: bool, ghost newest: int)
      requires Valid() && (Recognised() ==> SlotsHold(View().slots, ops))
      modifies this, entries
      ensures old(Recognised()) ==> IsNewest(ops, newest) && handoff == (newest >= 0 && ops[newest].entry.value != 0)
      ensures !old(Recognised()) || newest < 0 ==> View() == old(View())
      ensures !old(Recognised()) ==> !handoff
      ensures old(Recognised()) && newest >= 0 ==>
        exists e :: IsMark(e, "screen-handoff-kernel-mark", 0x3f, ops[newest].entry.value) &&
                    View() == Step(old(View()), Lazy(e))
    {
      newest := -1;
      if !Recognised() {
        return false, -1;
      }
      var best, found, value := FindHandoff();
      BestIsNewest(View().slots, ops, best, value);
      newest := best - 1;
      if best != 0 {
        ghost var before, e := LazyMark("screen-handoff-kernel-mark", 0x3f, value, namePtr);
      }
      return found, newest;
    }
  }

  lemma {:induction false} BestStep(slots: seq<Entry>, e: Entry)
    ensures forall b, v | IsBest(slots, b, v) ::
              IsBest(slots + [e], if Matches(e) && e.seqNo > b then e.seqNo else b,
                     if Matches(e) && e.seqNo > b then e.value else v)
  {
    hide Matches;
    var all := slots + [e];
    forall b, v | IsBest(slots, b, v)
      ensures IsBest(all, if Matches(e) && e.seqNo > b then e.seqNo else b,
                     if Matches(e) && e.seqNo > b then e.value else v)
    {
      assert all[|slots|] == e;
      assert forall i | 0 <= i < |slots| :: all[i] == slots[i];
      if b > 0 {
        var i :| 0 <= i < |slots| && Matches(slots[i]) && slots[i].seqNo == b && slots[i].value == v;
        assert Matches(all[i]) && all[i].seqNo == b && all[i].value == v;
      }
    }
  }
}
