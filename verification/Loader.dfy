/**
 The segment move of boot/linux-loader.c: ELF validation, one overlapping move of all
 LOAD segments, and DTB placement. RAM is one byte array; addresses are offsets into
 it, so offset 0 stands for KSEG0_BASE.
 */
module Loader {
  import opened CArithmetic

  const KSEG0_BASE := 0x8000_0000
  const RAM_SIZE := 0x0800_0000
  const EHDR_SIZE := 52
  const PHDR_SIZE := 32
  const PT_LOAD := 1

  predicate RangeInRam(m: seq<Byte>, a: int, len: int) {
    0 <= a && 0 <= len && a + len <= |m|
  }

  function Le16(m: seq<Byte>, a: nat): int
    requires RangeInRam(m, a, 2)
  {
    m[a] + (m[a + 1] as int) * 0x100
  }

  function Le32(m: seq<Byte>, a: nat): (w: int)
    requires RangeInRam(m, a, 4)
    ensures 0 <= w < U32
  {
    m[a] + (m[a + 1] as int) * 0x100 + (m[a + 2] as int) * 0x1_0000 + (m[a + 3] as int) * 0x100_0000
  }

  // ----- program headers -----

  datatype Phdr = Phdr(kind: int, offset: int, vaddr: int, paddr: int, filesz: int, memsz: int)
  {
    predicate IsLoad() {
      kind == PT_LOAD
    }

    /** Where the segment goes: `to_kseg0` of its physical, else its virtual, address. */
    function Dst(): int {
      ToKseg0(if paddr != 0 then paddr else vaddr) - KSEG0_BASE
    }

    function End(): int {
      Dst() + memsz
    }

    /** The move this header asks for when the file is at `blob`. */
    function Move(blob: int): Segment {
      Segment(IsLoad(), Dst(), blob + offset, filesz, memsz)
    }
  }

  datatype Segment = Segment(load: bool, dst: int, src: int, filesz: int, memsz: int)
  {
    predicate Covers(a: int) {
      load && dst <= a < dst + memsz
    }

    predicate InRam(m: seq<Byte>) {
      && RangeInRam(m, dst, memsz) && RangeInRam(m, src, filesz)
      && filesz <= memsz
    }
  }

  /** `to_kseg0` on a 32-bit address: KSEG1 maps down, other segments get the top bit. */
  function ToKseg0(addr: int): int {
    if addr / 0x2000_0000 == 4 then addr
    else if addr / 0x2000_0000 == 5 then addr % 0x2000_0000 + KSEG0_BASE
    else if addr >= KSEG0_BASE then addr
    else addr + KSEG0_BASE
  }

  /** Program header `i` of the table at `table`. */
  function PhdrAt(m: seq<Byte>, table: nat, i: nat): (p: Phdr)
    requires RangeInRam(m, table + PHDR_SIZE * i, PHDR_SIZE)
    ensures 0 <= p.filesz < U32 && 0 <= p.memsz < U32 && 0 <= p.offset < U32 && 0 <= p.Dst() < U32 - KSEG0_BASE
  {
    var a := table + PHDR_SIZE * i;
    Phdr(Le32(m, a), Le32(m, a + 4), Le32(m, a + 8), Le32(m, a + 12), Le32(m, a + 16), Le32(m, a + 20))
  }

  /** The table as a sequence. */
  function Phdrs(m: seq<Byte>, table: nat, n: nat): (ps: seq<Phdr>)
    requires RangeInRam(m, table, PHDR_SIZE * n)
    ensures |ps| == n
  {
    seq(n, i requires 0 <= i < n => PhdrAt(m, table, i))
  }

  // ----- validation -----

  /** `blob_range_valid`. */
  predicate RangeValid(size: int, off: int, len: int) {
    off <= size && len <= size - off
  }

  /** `valid_elf`: a little-endian 32-bit MIPS executable with a program header table inside the blob. */
  predicate ValidElf(m: seq<Byte>, blob: nat, size: nat)
    requires RangeInRam(m, blob, size)
  {
    && size >= EHDR_SIZE
    && m[blob] == 0x7f && m[blob + 1] == 0x45 && m[blob + 2] == 0x4c && m[blob + 3] == 0x46
    && m[blob + 4] == 1 && m[blob + 5] == 1
    && Le16(m, blob + 16) == 2 && Le16(m, blob + 18) == 8
    && Le16(m, blob + 42) == PHDR_SIZE && Le16(m, blob + 44) != 0
    && RangeValid(size, Le32(m, blob + 28), Le16(m, blob + 44) * PHDR_SIZE)
  }

  function TableOf(m: seq<Byte>, blob: nat, size: nat): (t: nat)
    requires RangeInRam(m, blob, size) && ValidElf(m, blob, size)
    ensures RangeInRam(m, t, PHDR_SIZE * Le16(m, blob + 44)) && blob <= t
    ensures t + PHDR_SIZE * Le16(m, blob + 44) <= blob + size
  {
    blob + Le32(m, blob + 28)
  }

  function Headers(m: seq<Byte>, blob: nat, size: nat): (ps: seq<Phdr>)
    requires RangeInRam(m, blob, size) && ValidElf(m, blob, size)
    ensures |ps| == Le16(m, blob + 44)
  {
    Phdrs(m, TableOf(m, blob, size), Le16(m, blob + 44))
  }

  function Segments(m: seq<Byte>, blob: nat, size: nat): (ss: seq<Segment>)
    requires RangeInRam(m, blob, size) && ValidElf(m, blob, size)
    ensures |ss| == Le16(m, blob + 44)
  {
    var ps := Headers(m, blob, size);
    seq(|ps|, i requires 0 <= i < |ps| => ps[i].Move(blob))
  }

  /** What the scan demands of one LOAD header; the addresses are not reduced modulo 2^32. */
  predicate Fits(p: Phdr, size: nat) {
    p.filesz <= p.memsz && RangeValid(size, p.offset, p.filesz) && p.End() <= RAM_SIZE
  }

  predicate ScanOk(m: seq<Byte>, blob: nat, size: nat)
    requires RangeInRam(m, blob, size)
  {
    ValidElf(m, blob, size) &&
    var ps := Headers(m, blob, size);
    (forall p | p in ps && p.IsLoad() :: Fits(p, size)) && exists p :: p in ps && p.IsLoad()
  }

  /** The least interval that holds every LOAD destination. */
  predicate Hull(ps: seq<Phdr>, lo: int, hi: int) {
    && (forall p | p in ps && p.IsLoad() :: lo <= p.Dst() && p.End() <= hi)
    && (exists p :: p in ps && p.IsLoad() && p.Dst() == lo)
    && (exists p :: p in ps && p.IsLoad() && p.End() == hi)
  }

  // ----- the move -----

  /** `m` with `len` bytes moved from `src` to `dst`. */
  function Moved(m: seq<Byte>, dst: nat, src: nat, len: nat): (r: seq<Byte>)
    requires RangeInRam(m, dst, len) && RangeInRam(m, src, len)
    ensures |r| == |m|
  {
    m[..dst] + m[src..src + len] + m[dst + len..]
  }

  /** Some LOAD segment from number `from` on covers address `a`. */
  ghost predicate Written(ss: seq<Segment>, from: nat, a: int) {
    exists j :: from <= j < |ss| && ss[j].Covers(a)
  }

  /** The byte of segment `s` that belongs at address `a`: file contents, then zeros. */
  function ImageByte(m0: seq<Byte>, s: Segment, a: int): Byte
    requires s.InRam(m0) && s.Covers(a)
  {
    if a < s.dst + s.filesz then m0[s.src + (a - s.dst)] else 0
  }

  /** Segment `s` stands at its destination, with a zeroed tail. */
  ghost predicate Placed(m0: seq<Byte>, m: seq<Byte>, s: Segment) {
    && |m| == |m0| && s.InRam(m0)
    && forall a | s.Covers(a) :: m[a] == ImageByte(m0, s, a)
  }

  /**
   What the comment of `copy_linux_elf` relies on: the LOAD records are in ascending file
   order without overlap, none moves down, the destinations are disjoint, and the header
   table ends before the first segment.
   */
  ghost predicate Movable(ss: seq<Segment>, tableEnd: int) {
    && (forall i | 0 <= i < |ss| && ss[i].load :: ss[i].src <= ss[i].dst && tableEnd <= ss[i].src)
    && (forall i, j | 0 <= i < j < |ss| && ss[i].load && ss[j].load :: ss[i].src + ss[i].filesz <= ss[j].src)
    && (forall i, j, a | 0 <= i < j < |ss| && ss[i].Covers(a) :: !ss[j].Covers(a))
  }

  /** The state of RAM after the records from number `from` on have been moved. */
  ghost predicate MovedFrom(m0: seq<Byte>, m: seq<Byte>, ss: seq<Segment>, from: nat) {
    && |m| == |m0|
    && (forall j | from <= j < |ss| && ss[j].load :: Placed(m0, m, ss[j]))
    && (forall a | 0 <= a < |m| && !Written(ss, from, a) :: m[a] == m0[a])
  }

  /** The LOAD segments of a scanned blob lie in RAM, source and destination. */
  lemma SegmentInRam(m: seq<Byte>, blob: nat, size: nat, i: nat)
    requires |m| == RAM_SIZE && RangeInRam(m, blob, size) && ScanOk(m, blob, size)
    requires i < |Segments(m, blob, size)| && Segments(m, blob, size)[i].load
    ensures Segments(m, blob, size)[i].InRam(m)
  {
    hide Le32, Le16, Phdr.Dst;
    var p := Headers(m, blob, size)[i];
    assert p in Headers(m, blob, size);
    assert p == PhdrAt(m, TableOf(m, blob, size), i);
  }

  /** Neither the header table nor a source still to be read is ever written. */
  lemma UnreadIsUnwritten(ss: seq<Segment>, tableEnd: int, from: nat, a: int)
    requires Movable(ss, tableEnd) && from <= |ss|
    requires a < tableEnd || (0 < from && ss[from - 1].load && a < ss[from - 1].src + ss[from - 1].filesz)
    ensures !Written(ss, from, a)
  {
  }

  /** Moving segment `i` after all later ones. */
  lemma MoveStep(m0: seq<Byte>, m: seq<Byte>, next: seq<Byte>, ss: seq<Segment>, tableEnd: int, i: nat)
    requires Movable(ss, tableEnd) && i < |ss| && ss[i].load && ss[i].InRam(m0)
    requires MovedFrom(m0, m, ss, i + 1) && |next| == |m|
    requires forall a | 0 <= a < |m| ::
      next[a] == (if ss[i].Covers(a) then ImageByte(m, ss[i], a) else m[a])
    ensures MovedFrom(m0, next, ss, i)
  {
    var s := ss[i];
    forall a | s.Covers(a)
      ensures next[a] == ImageByte(m0, s, a)
    {
      if a < s.dst + s.filesz {
        UnreadIsUnwritten(ss, tableEnd, i + 1, s.src + (a - s.dst));
      }
    }
    forall j | i < j < |ss| && ss[j].load
      ensures Placed(m0, next, ss[j])
    {
      assert Placed(m0, m, ss[j]);
    }
    forall a | 0 <= a < |m| && !Written(ss, i, a)
      ensures next[a] == m0[a]
    {
      assert !s.Covers(a) && !Written(ss, i + 1, a);
    }
  }

  lemma SkipStep(m0: seq<Byte>, m: seq<Byte>, ss: seq<Segment>, i: nat)
    requires i < |ss| && !ss[i].load && MovedFrom(m0, m, ss, i + 1)
    ensures MovedFrom(m0, m, ss, i)
  {
    assert forall a :: Written(ss, i + 1, a) ==> Written(ss, i, a);
  }

  lemma HeaderKept(m0: seq<Byte>, m: seq<Byte>, table: nat, i: nat)
    requires |m| == |m0| && RangeInRam(m, table + PHDR_SIZE * i, PHDR_SIZE)
    requires forall a | table + PHDR_SIZE * i <= a < table + PHDR_SIZE * (i + 1) :: m[a] == m0[a]
    ensures PhdrAt(m, table, i) == PhdrAt(m0, table, i)
  {
  }

  /** Address where the header table ends. */
  function TableEnd(m: seq<Byte>, blob: nat, size: nat): int
    requires RangeInRam(m, blob, size) && ValidElf(m, blob, size)
  {
    TableOf(m, blob, size) + PHDR_SIZE * Le16(m, blob + 44)
  }

  // ----- the code -----

  method CopyForward(mem: array<Byte>, dst: nat, src: nat, len: nat)
    requires RangeInRam(mem[..], dst, len) && RangeInRam(mem[..], src, len)
    requires dst <= src || dst >= src + len
    modifies mem
    ensures mem[..] == Moved(old(mem[..]), dst, src, len)
  {
    for k := 0 to len
      invariant forall a | dst <= a < dst + k :: mem[a] == old(mem[src + (a - dst)])
      invariant forall a | 0 <= a < dst || dst + k <= a < mem.Length :: mem[a] == old(mem[a])
    {
      mem[dst + k] := mem[src + k];
    }
    MovedIs(old(mem[..]), mem[..], dst, src, len);
  }

  /** `copy_overlap`: backwards when the destination starts inside the source. */
  method CopyOverlap(mem: array<Byte>, dst: nat, src: nat, len: nat)
    requires RangeInRam(mem[..], dst, len) && RangeInRam(mem[..], src, len)
    modifies mem
    ensures mem[..] == Moved(old(mem[..]), dst, src, len)
  {
    if dst <= src || dst >= src + len {
      CopyForward(mem, dst, src, len);
      return;
    }
    for k := len downto 0
      invariant forall a | dst + k <= a < dst + len :: mem[a] == old(mem[src + (a - dst)])
      invariant forall a | 0 <= a < dst + k || dst + len <= a < mem.Length :: mem[a] == old(mem[a])
    {
      mem[dst + k] := mem[src + k];
    }
    MovedIs(old(mem[..]), mem[..], dst, src, len);
  }

  lemma MovedIs(m0: seq<Byte>, m: seq<Byte>, dst: nat, src: nat, len: nat)
    requires RangeInRam(m0, dst, len) && RangeInRam(m0, src, len) && |m| == |m0|
    requires forall a | dst <= a < dst + len :: m[a] == m0[src + (a - dst)]
    requires forall a | 0 <= a < dst || dst + len <= a < |m| :: m[a] == m0[a]
    ensures m == Moved(m0, dst, src, len)
  {
  }

  method ZeroBytes(mem: array<Byte>, dst: nat, len: nat)
    requires RangeInRam(mem[..], dst, len)
    modifies mem
    ensures forall a | 0 <= a < mem.Length :: mem[a] == if dst <= a < dst + len then 0 else old(mem[a])
  {
    for k := 0 to len
      invariant forall a | 0 <= a < mem.Length :: mem[a] == if dst <= a < dst + k then 0 else old(mem[a])
    {
      mem[dst + k] := 0;
    }
  }

  /** The scan so far: every LOAD header fits and the bounds are their hull. */
  ghost predicate Scanned(ps: seq<Phdr>, size: nat, loads: int, lo: int, hi: int) {
    && loads >= 0
    && (forall p | p in ps && p.IsLoad() :: Fits(p, size))
    && (loads == 0 ==> (forall p | p in ps :: !p.IsLoad()) && lo == U32 - 1 && hi == 0)
    && (loads > 0 ==> Hull(ps, lo, hi) && 0 <= lo <= hi <= RAM_SIZE)
  }

  lemma ScannedStep(ps: seq<Phdr>, p: Phdr, size: nat, loads: int, lo: int, hi: int)
    requires Scanned(ps, size, loads, lo, hi) && 0 <= p.Dst() < U32 && 0 <= p.memsz
    ensures !p.IsLoad() ==> Scanned(ps + [p], size, loads, lo, hi)
    ensures p.IsLoad() && Fits(p, size) ==>
      Scanned(ps + [p], size, loads + 1, if p.Dst() < lo then p.Dst() else lo, if p.End() > hi then p.End() else hi)
  {
    var qs := ps + [p];
    assert p in qs && forall q | q in ps :: q in qs;
    assert forall q | q in qs :: q in ps || q == p;
  }

  /** `scan_linux_elf`: accepts exactly the blobs that satisfy `ScanOk` and reports their hull. */
  method ScanLinuxElf(mem: array<Byte>, blob: nat, size: nat) returns (ok: bool, lo: int, hi: int)
    requires mem.Length == RAM_SIZE && RangeInRam(mem[..], blob, size)
    ensures ok <==> ScanOk(mem[..], blob, size)
    ensures ok ==> Hull(Headers(mem[..], blob, size), lo, hi) && 0 <= lo <= hi <= RAM_SIZE
  {
    hide PhdrAt, Phdr.Dst, Le32, Le16;
    ok, lo, hi := false, U32 - 1, 0;
    if !ValidElf(mem[..], blob, size) {
      return;
    }
    var table := TableOf(mem[..], blob, size);
    var n := Le16(mem[..], blob + 44);
    ghost var ps := Headers(mem[..], blob, size);
    var loads := 0;
    for i := 0 to n
      invariant Scanned(ps[..i], size, loads, lo, hi)
    {
      var p := PhdrAt(mem[..], table, i);
      assert p == ps[i] && p in ps;
      ScannedStep(ps[..i], p, size, loads, lo, hi);
      assert ps[..i + 1] == ps[..i] + [p];
      if p.IsLoad() {
        if p.filesz > p.memsz || !RangeValid(size, p.offset, p.filesz) {
          return;
        }
        var dst := p.Dst() + KSEG0_BASE;
        var end := Wrap32(dst + p.memsz);
        EndCheck(p);
        if end < dst || end > KSEG0_BASE + RAM_SIZE {
          return;
        }
        if p.Dst() < lo {
          lo := p.Dst();
        }
        if p.End() > hi {
          hi := p.End();
        }
        loads := loads + 1;
      }
    }
    assert ps[..n] == ps;
    ok := loads != 0;
  }

  /** The 32-bit end check rejects exactly the segments whose true end is beyond RAM. */
  lemma EndCheck(p: Phdr)
    requires 0 <= p.Dst() < U32 - KSEG0_BASE && 0 <= p.memsz < U32
    ensures var dst := p.Dst() + KSEG0_BASE; var end := Wrap32(dst + p.memsz);
            end < dst || end > KSEG0_BASE + RAM_SIZE <==> p.End() > RAM_SIZE
  {
  }

  /** Copy and zero fill of one record. */
  method MoveSegment(mem: array<Byte>, dst: nat, src: nat, filesz: nat, memsz: nat)
    requires Segment(true, dst, src, filesz, memsz).InRam(mem[..])
    modifies mem
    ensures var s := Segment(true, dst, src, filesz, memsz);
            forall a | 0 <= a < mem.Length ::
              mem[..][a] == (if s.Covers(a) then ImageByte(old(mem[..]), s, a) else old(mem[..])[a])
  {
    CopyOverlap(mem, dst, src, filesz);
    ZeroBytes(mem, dst + filesz, memsz - filesz);
  }

  /**
   `copy_linux_elf`: walks the records backwards, reading each header and each source
   byte from RAM as the moves before have left it.
   */
  method CopyLinuxElf(mem: array<Byte>, blob: nat, ghost size: nat)
    requires mem.Length == RAM_SIZE && RangeInRam(mem[..], blob, size) && ScanOk(mem[..], blob, size)
    requires Movable(Segments(mem[..], blob, size), TableEnd(mem[..], blob, size))
    modifies mem
    ensures MovedFrom(old(mem[..]), mem[..], old(Segments(mem[..], blob, size)), 0)
  {
    hide PhdrAt, Phdr.Dst, Le32, Le16, MovedFrom, Movable;
    ghost var m0 := mem[..];
    ghost var ss := Segments(m0, blob, size);
    var table := blob + Le32(mem[..], blob + 28);
    var i := Le16(mem[..], blob + 44);
    MoveNothing(m0, ss);
    while i != 0
      invariant 0 <= i <= |ss| && MovedFrom(m0, mem[..], ss, i)
    {
      i := i - 1;
      TableKept(m0, mem[..], blob, size, i);
      var p := PhdrAt(mem[..], table, i);
      if p.IsLoad() {
        ghost var m := mem[..];
        SegmentInRam(m0, blob, size, i);
        MoveSegment(mem, p.Dst(), blob + p.offset, p.filesz, p.memsz);
        MoveStep(m0, m, mem[..], ss, TableEnd(m0, blob, size), i);
      } else {
        SkipStep(m0, mem[..], ss, i);
      }
    }
  }

  lemma MoveNothing(m0: seq<Byte>, ss: seq<Segment>)
    ensures MovedFrom(m0, m0, ss, |ss|)
  {
  }

  lemma TableKept(m0: seq<Byte>, m: seq<Byte>, blob: nat, size: nat, i: nat)
    requires RangeInRam(m0, blob, size) && ValidElf(m0, blob, size) && i < |Segments(m0, blob, size)|
    requires Movable(Segments(m0, blob, size), TableEnd(m0, blob, size))
    requires MovedFrom(m0, m, Segments(m0, blob, size), i + 1)
    ensures |m| == |m0| && RangeInRam(m, TableOf(m0, blob, size) + PHDR_SIZE * i, PHDR_SIZE)
    ensures PhdrAt(m, TableOf(m0, blob, size), i) == Headers(m0, blob, size)[i]
  {
    hide PhdrAt, Phdr.Dst, Le32, Le16, Movable;
    var table := TableOf(m0, blob, size);
    forall a | table + PHDR_SIZE * i <= a < table + PHDR_SIZE * (i + 1)
      ensures m[a] == m0[a]
    {
      UnreadIsUnwritten(Segments(m0, blob, size), TableEnd(m0, blob, size), i + 1, a);
    }
    HeaderKept(m0, m, table, i);
  }

  // ----- DTB placement and the whole load -----

  function AlignUp(value: int, align: int): (r: int)
    requires align > 0
    ensures value <= r < value + align && r % align == 0
  {
    var q := (value + align - 1) / align;
    assert value + align - 1 == q * align + (value + align - 1) % align;
    AlignedMod(q, align);
    q * align
  }

  lemma AlignedMod(q: int, align: int)
    requires align > 0
    ensures q * align % align == 0
  {
    DivModUnique(q * align, align, q, 0);
  }

  /** Above both the kernel's last byte and the loader's own payload, 64 KiB aligned. */
  function DtbDest(hi: int, payloadEnd: int): (d: int)
    ensures hi <= d && payloadEnd <= d
  {
    var above := AlignUp(hi, 0x1_0000);
    var payload := AlignUp(payloadEnd, 0x1_0000);
    if above < payload then payload else above
  }

  /** The DTB goes to the first 64 KiB boundary that is above both. */
  lemma {:induction false} DtbDestIsLeast(hi: int, payloadEnd: int, e: int)
    requires hi <= e && payloadEnd <= e && e % 0x1_0000 == 0
    ensures DtbDest(hi, payloadEnd) % 0x1_0000 == 0 && DtbDest(hi, payloadEnd) <= e
  {
    hide AlignUp;
  }

  /** What a blob says depends only on its own bytes. */
  lemma SameBlob(m0: seq<Byte>, m: seq<Byte>, blob: nat, size: nat)
    requires |m| == |m0| && RangeInRam(m, blob, size)
    requires forall a | blob <= a < blob + size :: m[a] == m0[a]
    ensures ValidElf(m, blob, size) <==> ValidElf(m0, blob, size)
    ensures ValidElf(m, blob, size) ==>
      && Headers(m, blob, size) == Headers(m0, blob, size)
      && Segments(m, blob, size) == Segments(m0, blob, size)
      && TableEnd(m, blob, size) == TableEnd(m0, blob, size)
    ensures ScanOk(m, blob, size) <==> ScanOk(m0, blob, size)
  {
    hide PhdrAt, Phdr.Dst, Fits;
    assert ValidElf(m, blob, size) <==> ValidElf(m0, blob, size);
    if ValidElf(m, blob, size) {
      var table := TableOf(m, blob, size);
      forall i | 0 <= i < Le16(m, blob + 44)
        ensures PhdrAt(m, table, i) == PhdrAt(m0, table, i)
      {
        HeaderKept(m0, m, table, i);
      }
      assert Headers(m, blob, size) == Headers(m0, blob, size);
    }
  }

  /** The finished load: kernel image and DTB in place, every other byte as before. */
  ghost predicate Loaded(m0: seq<Byte>, m: seq<Byte>, ss: seq<Segment>, dtb: nat, dtbSize: nat, dest: int) {
    && |m| == |m0| && RangeInRam(m, dest, dtbSize) && RangeInRam(m0, dtb, dtbSize)
    && (forall j | 0 <= j < |ss| && ss[j].load :: Placed(m0, m, ss[j]))
    && (forall a | dest <= a < dest + dtbSize :: m[a] == m0[dtb + (a - dest)])
    && (forall a | 0 <= a < |m| && !(dest <= a < dest + dtbSize) && !Written(ss, 0, a) :: m[a] == m0[a])
  }

  /** The order DTB first, kernel second, is harmless: neither touches what the other needs. */
  lemma DtbSurvives(m0: seq<Byte>, m1: seq<Byte>, m2: seq<Byte>, ss: seq<Segment>,
                    limit: int, hi: int, dtb: nat, dtbSize: nat, dest: nat)
    requires |m0| == |m1| && RangeInRam(m0, dtb, dtbSize) && RangeInRam(m0, dest, dtbSize)
    requires m1 == Moved(m0, dest, dtb, dtbSize)
    requires MovedFrom(m1, m2, ss, 0) && hi <= dest && limit <= dest
    requires forall j | 0 <= j < |ss| && ss[j].load ::
      ss[j].InRam(m0) && ss[j].dst + ss[j].memsz <= hi && ss[j].src + ss[j].filesz <= limit
    ensures Loaded(m0, m2, ss, dtb, dtbSize, dest)
  {
    forall j | 0 <= j < |ss| && ss[j].load
      ensures Placed(m0, m2, ss[j])
    {
      assert Placed(m1, m2, ss[j]);
      assert forall a | ss[j].Covers(a) :: ImageByte(m1, ss[j], a) == ImageByte(m0, ss[j], a);
    }
    forall a | dest <= a < dest + dtbSize
      ensures m2[a] == m0[dtb + (a - dest)]
    {
      assert !Written(ss, 0, a);
      assert m1[a] == m0[dtb + (a - dest)];
    }
  }

  /**
   `linux_loader_main_impl` up to and including `copy_linux_elf`: scan, choose the DTB
   address, copy the DTB, move the kernel. Refusal (the panic paths) changes nothing.
   */
  method LoadKernel(mem: array<Byte>, blob: nat, size: nat, dtb: nat, dtbSize: nat)
    returns (ok: bool, lo: int, hi: int, dest: int)
    requires mem.Length == RAM_SIZE
    requires RangeInRam(mem[..], blob, size) && RangeInRam(mem[..], dtb, dtbSize) && blob + size <= dtb
    requires ScanOk(mem[..], blob, size) ==>
               Movable(Segments(mem[..], blob, size), TableEnd(mem[..], blob, size))
    modifies mem
    ensures old(ScanOk(mem[..], blob, size)) ==>
              Hull(old(Headers(mem[..], blob, size)), lo, hi) && dest == DtbDest(hi, dtb + dtbSize)
    ensures ok <==> old(ScanOk(mem[..], blob, size)) && dest + dtbSize <= RAM_SIZE
    ensures !ok ==> mem[..] == old(mem[..])
    ensures ok ==> Loaded(old(mem[..]), mem[..], old(Segments(mem[..], blob, size)), dtb, dtbSize, dest)
    ensures ok ==> forall a | 0 <= a < mem.Length && mem[a] != old(mem[a]) ::
              lo <= a < hi || dest <= a < dest + dtbSize
  {
    hide Headers, Segments, TableOf, ValidElf, Movable, AlignUp, DtbDest, MovedFrom, Le16, Le32;
    ghost var m0 := mem[..];
    dest := 0;
    ok, lo, hi := ScanLinuxElf(mem, blob, size);
    if !ok {
      return;
    }
    dest := DtbDest(hi, dtb + dtbSize);
    if dest + dtbSize > RAM_SIZE {
      ok := false;
      return;
    }
    CopyForward(mem, dest, dtb, dtbSize);
    SameBlob(m0, mem[..], blob, size);
    ghost var m1 := mem[..];
    CopyLinuxElf(mem, blob, size);
    SegmentBounds(m0, blob, size, lo, hi);
    DtbSurvives(m0, m1, mem[..], Segments(m0, blob, size), blob + size, hi, dtb, dtbSize, dest);
  }

  /** Every segment of a scanned blob reads inside the blob and writes inside the hull. */
  lemma SegmentBounds(m: seq<Byte>, blob: nat, size: nat, lo: int, hi: int)
    requires |m| == RAM_SIZE && RangeInRam(m, blob, size) && ScanOk(m, blob, size)
    requires Hull(Headers(m, blob, size), lo, hi)
    ensures var ss := Segments(m, blob, size);
            && (forall j | 0 <= j < |ss| && ss[j].load ::
                  ss[j].InRam(m) && lo <= ss[j].dst && ss[j].dst + ss[j].memsz <= hi &&
                  ss[j].src + ss[j].filesz <= blob + size)
            && (forall a | Written(ss, 0, a) :: lo <= a < hi)
  {
    hide Le16, Le32, PhdrAt, Phdr.Dst, ValidElf;
    var ss := Segments(m, blob, size);
    forall j | 0 <= j < |ss| && ss[j].load
      ensures ss[j].InRam(m) && lo <= ss[j].dst && ss[j].dst + ss[j].memsz <= hi
      ensures ss[j].src + ss[j].filesz <= blob + size
    {
      SegmentInRam(m, blob, size, j);
      var p := Headers(m, blob, size)[j];
      assert p in Headers(m, blob, size);
    }
  }
}
