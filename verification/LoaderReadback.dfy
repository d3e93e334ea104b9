/**
 The whole readback after a load, boot/linux-loader.c: `verify_repair_linux_elf` over all LOAD
 records with their zeroed tails, then `verify_repair_range` on the DTB.
 */
module LoaderReadback {
  import opened CArithmetic
  import opened Loader
  import opened LoaderVerify

  /** The readback of a range touches nothing outside its destination. */
  lemma {:induction false} RepairsInside(m: seq<Byte>, dst: nat, src: nat, off: nat, len: nat, a: nat)
    requires off <= len && RangeInRam(m, dst, len) && RangeInRam(m, src, len)
    requires a < |m| && !(dst <= a < dst + len)
    ensures Repaired(m, dst, src, off, len)[a] == m[a]
    decreases len - off
  {
    hide Repaired, Rewrite;
    if off < len {
      var n := if off + 4 <= len then 4 else 1;
      RepairedUnfold(m, dst, src, off, len);
      RewriteOutside(m, dst, src, off, n, a);
      RepairsInside(Rewrite(m, dst, src, off, n), dst, src, off + n, len, a);
    } else {
      RepairedEnd(m, dst, src, len);
    }
  }

  lemma {:induction false} RewriteOutside(m: seq<Byte>, dst: nat, src: nat, off: nat, n: nat, a: nat)
    requires RangeInRam(m, dst, off + n) && RangeInRam(m, src, off + n)
    requires a < |m| && !(dst + off <= a < dst + off + n)
    ensures Rewrite(m, dst, src, off, n)[a] == m[a]
  {
  }

  /** Two ranges of `len` bytes have no byte in common. */
  predicate Separate(dst: int, src: int, len: int) {
    src + len <= dst || dst + len <= src
  }

  /** With a separate source the readback makes the destination equal to it. */
  lemma {:induction false} RepairHeals(m: seq<Byte>, dst: nat, src: nat, off: nat, len: nat, a: nat)
    requires off <= len && RangeInRam(m, dst, len) && RangeInRam(m, src, len) && Separate(dst, src, len)
    requires dst + off <= a < dst + len
    ensures Repaired(m, dst, src, off, len)[a] == m[a - dst + src]
    decreases len - off
  {
    hide Repaired, Rewrite;
    var n := if off + 4 <= len then 4 else 1;
    var w := Rewrite(m, dst, src, off, n);
    RepairedUnfold(m, dst, src, off, len);
    if a < dst + off + n {
      RepairsAbove(w, dst, src, off + n, len, a);
      RewriteAt(m, dst, src, off, n, a);
    } else {
      RepairHeals(w, dst, src, off + n, len, a);
      RewriteOutside(m, dst, src, off, n, a - dst + src);
    }
  }

  function Cleared(m: seq<Byte>, from: nat, len: nat): (r: seq<Byte>)
    requires RangeInRam(m, from, len)
    ensures |r| == |m|
  {
    seq(|m|, a requires 0 <= a < |m| => if from <= a < from + len then 0 else m[a])
  }

  /** One LOAD record: its file bytes, then its tail. */
  function ReadSegment(m: seq<Byte>, s: Segment): (r: seq<Byte>)
    requires s.InRam(m)
    ensures |r| == |m|
  {
    Cleared(Repaired(m, s.dst, s.src, 0, s.filesz), s.dst + s.filesz, s.memsz - s.filesz)
  }

  predicate AllInRam(m: seq<Byte>, ss: seq<Segment>) {
    forall j | 0 <= j < |ss| && ss[j].load :: ss[j].InRam(m)
  }

  /** `verify_repair_linux_elf`: the records in order. */
  function Readback(m: seq<Byte>, ss: seq<Segment>): (r: seq<Byte>)
    requires AllInRam(m, ss)
    ensures |r| == |m|
    decreases |ss|
  {
    if ss == [] then m
    else Readback(if ss[0].load then ReadSegment(m, ss[0]) else m, ss[1..])
  }

  /** The file bytes agree with their source, and the tail is zero. */
  ghost predicate InPlace(m: seq<Byte>, s: Segment)
    requires s.InRam(m)
  {
    && Agree(m, s.dst, s.src, 0, s.filesz)
    && forall a | s.dst + s.filesz <= a < s.dst + s.memsz :: m[a] == 0
  }

  lemma {:induction false} ReadSegmentAt(m: seq<Byte>, s: Segment, a: nat)
    requires s.InRam(m) && a < |m|
    ensures !(s.dst <= a < s.dst + s.memsz) ==> ReadSegment(m, s)[a] == m[a]
    ensures s.dst + s.filesz <= a < s.dst + s.memsz ==> ReadSegment(m, s)[a] == 0
    ensures s.dst <= a < s.dst + s.filesz ==> ReadSegment(m, s)[a] == Repaired(m, s.dst, s.src, 0, s.filesz)[a]
  {
    hide Repaired;
    if !(s.dst <= a < s.dst + s.filesz) {
      RepairsInside(m, s.dst, s.src, 0, s.filesz, a);
    }
  }

  /** One record reads back without a change exactly when it is in place. */
  lemma {:induction false} SegmentQuietIff(m: seq<Byte>, s: Segment)
    requires s.InRam(m)
    ensures ReadSegment(m, s) == m <==> InPlace(m, s)
    ensures !InPlace(m, s) ==> exists a :: s.dst <= a < s.dst + s.memsz && ReadSegment(m, s)[a] != m[a]
  {
    hide Repaired, ReadSegment;
    var r := ReadSegment(m, s);
    var fixed := Repaired(m, s.dst, s.src, 0, s.filesz);
    NoRepairIff(m, s.dst, s.src, 0, s.filesz);
    forall a | 0 <= a < |m|
      ensures !(s.dst <= a < s.dst + s.memsz) ==> r[a] == m[a]
      ensures s.dst + s.filesz <= a < s.dst + s.memsz ==> r[a] == 0
      ensures s.dst <= a < s.dst + s.filesz ==> r[a] == fixed[a]
      ensures !(s.dst <= a < s.dst + s.filesz) ==> fixed[a] == m[a]
    {
      ReadSegmentAt(m, s, a);
      if !(s.dst <= a < s.dst + s.filesz) {
        RepairsInside(m, s.dst, s.src, 0, s.filesz, a);
      }
    }
    if InPlace(m, s) {
      assert r == m;
    } else if fixed != m {
      var a :| 0 <= a < |m| && fixed[a] != m[a];
      assert r[a] != m[a];
    } else {
      var a :| s.dst + s.filesz <= a < s.dst + s.memsz && m[a] != 0;
      assert r[a] != m[a];
    }
  }

  /** A record whose source is separate from its destination is in place after its readback. */
  lemma {:induction false} SegmentHeals(m: seq<Byte>, s: Segment)
    requires s.InRam(m) && SourceUntouched(s, s)
    ensures InPlace(ReadSegment(m, s), s)
  {
    hide Repaired, ReadSegment;
    var r := ReadSegment(m, s);
    forall a | s.dst <= a < s.dst + s.memsz
      ensures a < s.dst + s.filesz ==> r[a] == r[a - s.dst + s.src]
      ensures a >= s.dst + s.filesz ==> r[a] == 0
    {
      ReadSegmentAt(m, s, a);
      if a < s.dst + s.filesz {
        assert s.filesz > 0;
        RepairHeals(m, s.dst, s.src, 0, s.filesz, a);
        ReadSegmentAt(m, s, a - s.dst + s.src);
      }
    }
  }

  /** Reading back `t` leaves the source of `s` alone. */
  predicate SourceUntouched(s: Segment, t: Segment) {
    s.src + s.filesz <= t.dst || t.dst + t.memsz <= s.src
  }

  /** The readback touches destinations only. */
  lemma {:induction false} ReadbackInside(m: seq<Byte>, ss: seq<Segment>, a: nat)
    requires AllInRam(m, ss) && a < |m| && !Written(ss, 0, a)
    ensures Readback(m, ss)[a] == m[a]
    decreases |ss|
  {
    hide ReadSegment;
    if ss != [] {
      assert !ss[0].Covers(a);
      forall j | 0 <= j < |ss[1..]| ensures !ss[1..][j].Covers(a) {
        assert ss[1..][j] == ss[j + 1];
      }
      if ss[0].load {
        ReadSegmentAt(m, ss[0], a);
        ReadbackInside(ReadSegment(m, ss[0]), ss[1..], a);
      } else {
        ReadbackInside(m, ss[1..], a);
      }
    }
  }

  ghost predicate AllInPlace(m: seq<Byte>, ss: seq<Segment>)
    requires AllInRam(m, ss)
  {
    forall j | 0 <= j < |ss| && ss[j].load :: InPlace(m, ss[j])
  }

  ghost predicate Apart(ss: seq<Segment>) {
    forall i, j, a | 0 <= i < j < |ss| && ss[i].Covers(a) :: !ss[j].Covers(a)
  }

  /** The records read back without a change exactly when each of them is in place. */
  lemma {:induction false} ReadbackQuietIff(m: seq<Byte>, ss: seq<Segment>)
    requires AllInRam(m, ss) && Apart(ss)
    ensures Readback(m, ss) == m <==> AllInPlace(m, ss)
    decreases |ss|
  {
    hide ReadSegment, InPlace;
    if ss != [] {
      var rest := ss[1..];
      assert forall j | 0 <= j < |rest| :: rest[j] == ss[j + 1];
      if !ss[0].load {
        ReadbackQuietIff(m, rest);
      } else {
        SegmentQuietIff(m, ss[0]);
        if InPlace(m, ss[0]) {
          ReadbackQuietIff(m, rest);
        } else {
          var a :| ss[0].dst <= a < ss[0].dst + ss[0].memsz && ReadSegment(m, ss[0])[a] != m[a];
          assert ss[0].Covers(a);
          ReadbackInside(ReadSegment(m, ss[0]), rest, a);
        }
      }
      AllInPlaceStep(m, ss);
    }
  }

  lemma {:induction false} AllInPlaceStep(m: seq<Byte>, ss: seq<Segment>)
    requires AllInRam(m, ss) && ss != []
    ensures AllInRam(m, ss[1..])
    ensures AllInPlace(m, ss) <==> (ss[0].load ==> InPlace(m, ss[0])) && AllInPlace(m, ss[1..])
  {
    hide InPlace;
    var rest := ss[1..];
    assert forall j | 0 <= j < |rest| :: rest[j] == ss[j + 1];
    forall j | 0 < j < |ss| ensures ss[j] == rest[j - 1] {
    }
  }

  /** No destination covers a source byte. */
  ghost predicate SourcesSeparate(ss: seq<Segment>) {
    && (forall j | 0 <= j < |ss| && ss[j].load :: SourceUntouched(ss[j], ss[j]))
    && forall j, b | 0 <= j < |ss| && ss[j].load && ss[j].src <= b < ss[j].src + ss[j].filesz :: !Written(ss, 0, b)
  }

  /** Then the readback repairs whatever is wrong: afterwards every record is in place. */
  lemma {:induction false} ReadbackHeals(m: seq<Byte>, ss: seq<Segment>)
    requires AllInRam(m, ss) && Apart(ss) && SourcesSeparate(ss)
    ensures AllInPlace(Readback(m, ss), ss)
    decreases |ss|
  {
    hide ReadSegment, InPlace;
    if ss != [] {
      var rest := ss[1..];
      assert forall j | 0 <= j < |rest| :: rest[j] == ss[j + 1];
      forall b | !Written(ss, 0, b) ensures !Written(rest, 0, b) {
      }
      var r := if ss[0].load then ReadSegment(m, ss[0]) else m;
      ReadbackHeals(r, rest);
      if ss[0].load {
        SegmentHeals(m, ss[0]);
        StaysInPlace(r, rest, ss[0]);
      }
      AllInPlaceStep(Readback(r, rest), ss);
    }
  }

  lemma {:induction false} StaysInPlace(m: seq<Byte>, rest: seq<Segment>, s: Segment)
    requires AllInRam(m, rest) && s.InRam(m) && s.load && InPlace(m, s)
    requires forall a | s.Covers(a) :: !Written(rest, 0, a)
    requires forall b | s.src <= b < s.src + s.filesz :: !Written(rest, 0, b)
    ensures InPlace(Readback(m, rest), s)
  {
    hide Readback, Written;
    var r := Readback(m, rest);
    forall a | s.Covers(a) ensures r[a] == m[a] {
      ReadbackInside(m, rest, a);
    }
    forall b | s.src <= b < s.src + s.filesz ensures r[b] == m[b] {
      ReadbackInside(m, rest, b);
    }
    forall a | s.dst <= a < s.dst + s.memsz
      ensures r[a] == if a < s.dst + s.filesz then r[a - s.dst + s.src] else 0
    {
      assert s.Covers(a) && r[a] == m[a];
    }
  }

  /** Everything after `copy_linux_elf`: the records, then the DTB. */
  function WholeReadback(m: seq<Byte>, ss: seq<Segment>, dtb: nat, dtbSize: nat, dest: nat): seq<Byte>
    requires AllInRam(m, ss) && RangeInRam(m, dtb, dtbSize) && RangeInRam(m, dest, dtbSize)
  {
    Repaired(Readback(m, ss), dest, dtb, 0, dtbSize)
  }

  /** The load did not change the value of any byte it had read. */
  ghost predicate SourcesKept(m0: seq<Byte>, m: seq<Byte>, ss: seq<Segment>, dtb: nat, dtbSize: nat)
    requires |m| == |m0| && AllInRam(m, ss) && RangeInRam(m, dtb, dtbSize)
  {
    && (forall j, b | 0 <= j < |ss| && ss[j].load && ss[j].src <= b < ss[j].src + ss[j].filesz :: m[b] == m0[b])
    && forall b | dtb <= b < dtb + dtbSize :: m[b] == m0[b]
  }

  /** A placed segment is in place exactly when its source still is what it was. */
  lemma {:induction false} PlacedInPlaceIff(m0: seq<Byte>, m: seq<Byte>, s: Segment)
    requires Placed(m0, m, s) && s.load
    ensures InPlace(m, s) <==> forall b | s.src <= b < s.src + s.filesz :: m[b] == m0[b]
  {
    forall a | s.dst <= a < s.dst + s.memsz
      ensures m[a] == if a < s.dst + s.filesz then m0[s.src + (a - s.dst)] else 0
    {
      assert s.Covers(a);
    }
    if InPlace(m, s) {
      forall b | s.src <= b < s.src + s.filesz ensures m[b] == m0[b] {
        var a := b - s.src + s.dst;
        assert m[a] == m[a - s.dst + s.src];
      }
    }
  }

  /**
   After a finished load the whole readback changes nothing exactly when no byte that was read,
   of any segment or of the DTB, has been given another value by the load itself.
   */
  lemma {:induction false} WholeReadbackQuietIff(m0: seq<Byte>, m: seq<Byte>, ss: seq<Segment>,
                                                 dtb: nat, dtbSize: nat, dest: nat)
    requires Loaded(m0, m, ss, dtb, dtbSize, dest) && Apart(ss)
    requires forall a | dest <= a < dest + dtbSize :: !Written(ss, 0, a)
    ensures AllInRam(m, ss)
    ensures WholeReadback(m, ss, dtb, dtbSize, dest) == m <==> SourcesKept(m0, m, ss, dtb, dtbSize)
  {
    hide Readback, Repaired, InPlace;
    forall j | 0 <= j < |ss| && ss[j].load ensures ss[j].InRam(m) && Placed(m0, m, ss[j]) {
    }
    forall j | 0 <= j < |ss| && ss[j].load
      ensures InPlace(m, ss[j]) <==> forall b | ss[j].src <= b < ss[j].src + ss[j].filesz :: m[b] == m0[b]
    {
      PlacedInPlaceIff(m0, m, ss[j]);
    }
    ReadbackQuietIff(m, ss);
    if Readback(m, ss) == m {
      NoRepairIff(m, dest, dtb, 0, dtbSize);
      DtbAgreesIff(m0, m, ss, dtb, dtbSize, dest);
    } else {
      StillChanged(m, ss, dtb, dtbSize, dest);
    }
  }

  lemma {:induction false} DtbAgreesIff(m0: seq<Byte>, m: seq<Byte>, ss: seq<Segment>, dtb: nat, dtbSize: nat, dest: nat)
    requires Loaded(m0, m, ss, dtb, dtbSize, dest)
    ensures Agree(m, dest, dtb, 0, dtbSize) <==> forall b | dtb <= b < dtb + dtbSize :: m[b] == m0[b]
  {
    if Agree(m, dest, dtb, 0, dtbSize) {
      forall b | dtb <= b < dtb + dtbSize ensures m[b] == m0[b] {
        var a := b - dtb + dest;
        assert m[a] == m[a - dest + dtb];
      }
    }
  }

  /** A change by the records is not undone by the DTB. */
  lemma {:induction false} StillChanged(m: seq<Byte>, ss: seq<Segment>, dtb: nat, dtbSize: nat, dest: nat)
    requires AllInRam(m, ss) && RangeInRam(m, dtb, dtbSize) && RangeInRam(m, dest, dtbSize)
    requires forall a | dest <= a < dest + dtbSize :: !Written(ss, 0, a)
    requires Readback(m, ss) != m
    ensures WholeReadback(m, ss, dtb, dtbSize, dest) != m
  {
    hide Readback, Repaired, Written;
    var r := Readback(m, ss);
    var a :| 0 <= a < |m| && r[a] != m[a];
    if !Written(ss, 0, a) {
      ReadbackInside(m, ss, a);
    }
    RepairsInside(r, dest, dtb, 0, dtbSize, a);
  }

  // ----- the code -----

  /** The loops over a zeroed tail. */
  method ClearTail(mem: array<Byte>, from: nat, len: nat)
    requires RangeInRam(mem[..], from, len)
    modifies mem
    ensures mem[..] == Cleared(old(mem[..]), from, len)
  {
    var done := 0;
    while done < len
      invariant 0 <= done <= len
      invariant forall a | 0 <= a < mem.Length :: mem[a] == if from <= a < from + done then 0 else old(mem[a])
    {
      var n := if done + 4 <= len then 4 else 1;
      var at := from + done;
      var got := mem[at..at + n];
      if got != seq(n, _ => 0) {
        forall i | 0 <= i < n {
          mem[at + i] := 0;
        }
      }
      assert forall a | at <= a < at + n :: mem[a] == 0 || mem[a] == got[a - at];
      assert forall a | at <= a < at + n :: mem[a] == 0;
      done := done + n;
    }
  }

  /** `verify_repair_linux_elf` over the records `ss` of the header table. */
  method VerifyRepairElf(mem: array<Byte>, ss: seq<Segment>)
    requires AllInRam(mem[..], ss)
    modifies mem
    ensures mem[..] == Readback(old(mem[..]), ss)
  {
    hide Repaired, Cleared;
    ghost var m0 := mem[..];
    var i := 0;
    while i < |ss|
      invariant 0 <= i <= |ss| && AllInRam(mem[..], ss[i..])
      invariant Readback(m0, ss) == Readback(mem[..], ss[i..])
    {
      var s := ss[i];
      assert ss[i..][0] == s && ss[i..][1..] == ss[i + 1..];
      ghost var m := mem[..];
      if s.load {
        var repairs := VerifyRepairRange(mem, s.dst, s.src, s.filesz);
        ClearTail(mem, s.dst + s.filesz, s.memsz - s.filesz);
        assert mem[..] == ReadSegment(m, s);
      }
      i := i + 1;
    }
  }

  /** The readback of the whole load. */
  method VerifyRepairLoad(mem: array<Byte>, ss: seq<Segment>, dtb: nat, dtbSize: nat, dest: nat)
    requires AllInRam(mem[..], ss) && RangeInRam(mem[..], dtb, dtbSize) && RangeInRam(mem[..], dest, dtbSize)
    modifies mem
    ensures mem[..] == WholeReadback(old(mem[..]), ss, dtb, dtbSize, dest)
  {
    hide Repaired, Readback;
    VerifyRepairElf(mem, ss);
    var repairs := VerifyRepairRange(mem, dest, dtb, dtbSize);
  }
}
