/**
 What the loader reads from a file laid out as chapter 4 and 5 of the System V gABI describe it:
 the ELF header and the program header table as little-endian fields in their order.
 */
module Elf {
  import opened CArithmetic
  import opened Loader

  // ----- the layout -----

  /** The ELF header after its identification bytes. */
  datatype Ehdr = Ehdr(
    e_type: int, e_machine: int, e_version: int, e_entry: int, e_phoff: int, e_shoff: int, e_flags: int,
    e_ehsize: int, e_phentsize: int, e_phnum: int, e_shentsize: int, e_shnum: int, e_shstrndx: int)

  datatype Entry = Entry(
    p_type: int, p_offset: int, p_vaddr: int, p_paddr: int, p_filesz: int, p_memsz: int, p_flags: int, p_align: int)

  /** The two bytes at `a` are `v`, low byte first. */
  predicate Half(m: seq<Byte>, a: nat, v: int)
    requires RangeInRam(m, a, 2)
  {
    0 <= v < 0x1_0000 && m[a] == v % 0x100 && m[a + 1] == v / 0x100
  }

  /** The four bytes at `a` are `v`, low byte first. */
  predicate Word(m: seq<Byte>, a: nat, v: int)
    requires RangeInRam(m, a, 4)
  {
    && 0 <= v < U32
    && m[a] == v % 0x100 && m[a + 1] == v / 0x100 % 0x100
    && m[a + 2] == v / 0x1_0000 % 0x100 && m[a + 3] == v / 0x100_0000
  }

  /** The header `e` stands at `a`, behind sixteen identification bytes. */
  predicate EhdrAt(m: seq<Byte>, a: nat, e: Ehdr)
    requires RangeInRam(m, a, 52)
  {
    && Half(m, a + 16, e.e_type) && Half(m, a + 18, e.e_machine)
    && Word(m, a + 20, e.e_version) && Word(m, a + 24, e.e_entry) && Word(m, a + 28, e.e_phoff)
    && Word(m, a + 32, e.e_shoff) && Word(m, a + 36, e.e_flags)
    && Half(m, a + 40, e.e_ehsize) && Half(m, a + 42, e.e_phentsize) && Half(m, a + 44, e.e_phnum)
    && Half(m, a + 46, e.e_shentsize) && Half(m, a + 48, e.e_shnum) && Half(m, a + 50, e.e_shstrndx)
  }

  /** The program header `p` stands at `a`. */
  predicate EntryAt(m: seq<Byte>, a: nat, p: Entry)
    requires RangeInRam(m, a, 32)
  {
    && Word(m, a, p.p_type) && Word(m, a + 4, p.p_offset) && Word(m, a + 8, p.p_vaddr) && Word(m, a + 12, p.p_paddr)
    && Word(m, a + 16, p.p_filesz) && Word(m, a + 20, p.p_memsz) && Word(m, a + 24, p.p_flags) && Word(m, a + 28, p.p_align)
  }

  /** 0x7f 'E' 'L' 'F', 32-bit objects, least significant byte first. */
  predicate IdentAt(m: seq<Byte>, a: nat)
    requires RangeInRam(m, a, 52)
  {
    && m[a] == 0x7f && m[a + 1] == 'E' as int && m[a + 2] == 'L' as int && m[a + 3] == 'F' as int
    && m[a + 4] == 1 && m[a + 5] == 1
  }

  /** The file at `blob` has header `e` and, if the table is inside it, the entries `ps`. */
  predicate Image(m: seq<Byte>, blob: nat, size: nat, e: Ehdr, ps: seq<Entry>)
    requires RangeInRam(m, blob, size) && size >= 52
  {
    && EhdrAt(m, blob, e)
    && |ps| == e.e_phnum
    && (e.e_phoff + 32 * e.e_phnum <= size ==>
          forall i | 0 <= i < |ps| :: EntryAt(m, blob + e.e_phoff + 32 * i, ps[i]))
  }

  // ----- addresses -----

  /** The address the segment is loaded at. */
  function LoadAddress(p: Entry): int {
    if p.p_paddr != 0 then p.p_paddr else p.p_vaddr
  }

  /** `addr` is the physical, cached or uncached form of the physical address `x`. */
  predicate Denotes(addr: int, x: int) {
    0 <= x < 0x2000_0000 && (addr == x || addr == 0x8000_0000 + x || addr == 0xa000_0000 + x)
  }

  /** All three forms of an address go to the same place, and every other address is beyond RAM. */
  lemma {:induction false} ToKseg0Denotes(addr: int, x: int)
    requires 0 <= addr < U32
    ensures Denotes(addr, x) ==> ToKseg0(addr) - KSEG0_BASE == x
    ensures (forall y :: !Denotes(addr, y)) ==> ToKseg0(addr) - KSEG0_BASE > RAM_SIZE
  {
    if forall y :: !Denotes(addr, y) {
      assert !Denotes(addr, addr) && !Denotes(addr, addr - 0x8000_0000) && !Denotes(addr, addr - 0xa000_0000);
    }
  }

  // ----- reading -----

  lemma {:induction false} HalfRead(m: seq<Byte>, a: nat, v: int)
    requires RangeInRam(m, a, 2) && Half(m, a, v)
    ensures Le16(m, a) == v
  {
  }

  lemma {:induction false} WordRead(m: seq<Byte>, a: nat, v: int)
    requires RangeInRam(m, a, 4) && Word(m, a, v)
    ensures Le32(m, a) == v
  {
    var q1, q2, q3 := v / 0x100, v / 0x1_0000, v / 0x100_0000;
    assert q2 == q1 / 0x100 && q3 == q2 / 0x100;
  }

  /** The loader reads each field of a program header from its own place. */
  lemma {:induction false} EntryRead(m: seq<Byte>, table: nat, i: nat, p: Entry)
    requires RangeInRam(m, table + 32 * i, 32) && EntryAt(m, table + 32 * i, p)
    ensures PhdrAt(m, table, i) == Phdr(p.p_type, p.p_offset, p.p_vaddr, p.p_paddr, p.p_filesz, p.p_memsz)
  {
    hide Word, Le32;
    var a := table + 32 * i;
    WordRead(m, a, p.p_type);
    WordRead(m, a + 4, p.p_offset);
    WordRead(m, a + 8, p.p_vaddr);
    WordRead(m, a + 12, p.p_paddr);
    WordRead(m, a + 16, p.p_filesz);
    WordRead(m, a + 20, p.p_memsz);
  }

  lemma {:induction false} EhdrRead(m: seq<Byte>, blob: nat, e: Ehdr)
    requires RangeInRam(m, blob, 52) && EhdrAt(m, blob, e)
    ensures Le16(m, blob + 16) == e.e_type && Le16(m, blob + 18) == e.e_machine && Le32(m, blob + 28) == e.e_phoff
    ensures Le16(m, blob + 42) == e.e_phentsize && Le16(m, blob + 44) == e.e_phnum
  {
    hide Word, Half, Le32, Le16;
    HalfRead(m, blob + 16, e.e_type);
    HalfRead(m, blob + 18, e.e_machine);
    WordRead(m, blob + 28, e.e_phoff);
    HalfRead(m, blob + 42, e.e_phentsize);
    HalfRead(m, blob + 44, e.e_phnum);
  }

  /** A 32-bit little-endian MIPS executable with a program header table inside the file. */
  predicate Executable(size: nat, e: Ehdr) {
    && e.e_type == 2 && e.e_machine == 8 && e.e_phentsize == 32 && e.e_phnum != 0
    && e.e_phoff + 32 * e.e_phnum <= size
  }

  lemma {:induction false} ValidIff(m: seq<Byte>, blob: nat, size: nat, e: Ehdr, ps: seq<Entry>)
    requires RangeInRam(m, blob, size) && size >= 52 && Image(m, blob, size, e, ps)
    ensures ValidElf(m, blob, size) <==> IdentAt(m, blob) && Executable(size, e)
  {
    hide Le16, Le32, EntryAt;
    EhdrRead(m, blob, e);
  }

  /** What the move makes of an entry. */
  function SegmentOf(p: Entry, blob: int): Segment {
    Segment(p.p_type == 1, ToKseg0(LoadAddress(p)) - KSEG0_BASE, blob + p.p_offset, p.p_filesz, p.p_memsz)
  }

  lemma {:induction false} HeadersRead(m: seq<Byte>, blob: nat, size: nat, e: Ehdr, ps: seq<Entry>)
    requires RangeInRam(m, blob, size) && size >= 52 && Image(m, blob, size, e, ps) && ValidElf(m, blob, size)
    ensures |Headers(m, blob, size)| == |Segments(m, blob, size)| == |ps|
    ensures forall i | 0 <= i < |ps| ::
      && Headers(m, blob, size)[i] ==
         Phdr(ps[i].p_type, ps[i].p_offset, ps[i].p_vaddr, ps[i].p_paddr, ps[i].p_filesz, ps[i].p_memsz)
      && Segments(m, blob, size)[i] == SegmentOf(ps[i], blob)
  {
    hide Le16, Le32, EntryAt, PhdrAt, ToKseg0;
    EhdrRead(m, blob, e);
    var table := TableOf(m, blob, size);
    forall i | 0 <= i < |ps|
      ensures PhdrAt(m, table, i) ==
              Phdr(ps[i].p_type, ps[i].p_offset, ps[i].p_vaddr, ps[i].p_paddr, ps[i].p_filesz, ps[i].p_memsz)
    {
      EntryRead(m, table, i, ps[i]);
    }
  }

  /** A LOAD entry that the loader can place: file bytes inside the file, memory inside RAM. */
  predicate Placeable(p: Entry, size: nat) {
    && p.p_filesz <= p.p_memsz && p.p_offset + p.p_filesz <= size
    && ToKseg0(LoadAddress(p)) - 0x8000_0000 + p.p_memsz <= 0x0800_0000
  }

  /**
   The scan accepts a file exactly when it is a MIPS executable that has a LOAD entry and whose
   LOAD entries can all be placed.
   */
  lemma {:induction false} ScanAcceptsIff(m: seq<Byte>, blob: nat, size: nat, e: Ehdr, ps: seq<Entry>)
    requires RangeInRam(m, blob, size) && size >= 52 && Image(m, blob, size, e, ps)
    ensures ScanOk(m, blob, size) <==>
            && IdentAt(m, blob) && Executable(size, e)
            && (exists i :: 0 <= i < |ps| && ps[i].p_type == 1)
            && forall i | 0 <= i < |ps| && ps[i].p_type == 1 :: Placeable(ps[i], size)
  {
    hide Le16, Le32, EntryAt, PhdrAt, ToKseg0, ValidElf, Image, IdentAt, EhdrAt;
    ValidIff(m, blob, size, e, ps);
    if ValidElf(m, blob, size) {
      HeadersRead(m, blob, size, e, ps);
      var hs := Headers(m, blob, size);
      forall i | 0 <= i < |ps|
        ensures hs[i] in hs && hs[i].IsLoad() == (ps[i].p_type == 1)
        ensures hs[i].IsLoad() ==> (Fits(hs[i], size) <==> Placeable(ps[i], size))
      {
      }
      assert forall h | h in hs :: exists i :: 0 <= i < |hs| && hs[i] == h;
    }
  }

  /** The hull of the scan in terms of the entries. */
  lemma {:induction false} HullIs(m: seq<Byte>, blob: nat, size: nat, e: Ehdr, ps: seq<Entry>, lo: int, hi: int)
    requires RangeInRam(m, blob, size) && size >= 52 && Image(m, blob, size, e, ps) && ValidElf(m, blob, size)
    requires Hull(Headers(m, blob, size), lo, hi)
    ensures forall i | 0 <= i < |ps| && ps[i].p_type == 1 ::
              var s := SegmentOf(ps[i], blob); lo <= s.dst && s.dst + s.memsz <= hi
    ensures exists i :: 0 <= i < |ps| && ps[i].p_type == 1 && SegmentOf(ps[i], blob).dst == lo
    ensures exists i :: 0 <= i < |ps| && ps[i].p_type == 1 &&
                        SegmentOf(ps[i], blob).dst + SegmentOf(ps[i], blob).memsz == hi
  {
    hide Le16, Le32, EntryAt, PhdrAt, ToKseg0, ValidElf, Image, EhdrAt;
    HeadersRead(m, blob, size, e, ps);
    var hs := Headers(m, blob, size);
    forall i | 0 <= i < |ps|
      ensures hs[i] in hs && hs[i].Dst() == SegmentOf(ps[i], blob).dst && hs[i].IsLoad() == (ps[i].p_type == 1)
    {
    }
    var p :| p in hs && p.IsLoad() && p.Dst() == lo;
    var i :| 0 <= i < |hs| && hs[i] == p;
    var q :| q in hs && q.IsLoad() && q.End() == hi;
    var j :| 0 <= j < |hs| && hs[j] == q;
    assert SegmentOf(ps[i], blob).dst == lo;
    assert SegmentOf(ps[j], blob).dst + SegmentOf(ps[j], blob).memsz == hi;
  }

  /** The entry has its file bytes, then zeros, at its address. */
  ghost predicate AtItsPlace(m0: seq<Byte>, m: seq<Byte>, blob: nat, p: Entry) {
    var a := ToKseg0(LoadAddress(p)) - KSEG0_BASE;
    && |m| == |m0| && 0 <= p.p_filesz <= p.p_memsz && 0 <= a && a + p.p_memsz <= |m|
    && 0 <= p.p_offset && blob + p.p_offset + p.p_filesz <= |m0|
    && forall x | a <= x < a + p.p_memsz ::
         m[x] == if x < a + p.p_filesz then m0[blob + p.p_offset + (x - a)] else 0
  }

  lemma {:induction false} PlacedIsAtItsPlace(m0: seq<Byte>, m: seq<Byte>, blob: nat, p: Entry)
    requires p.p_type == 1 && p.p_offset >= 0 && Placed(m0, m, SegmentOf(p, blob))
    ensures AtItsPlace(m0, m, blob, p)
  {
    hide ToKseg0;
    var s := SegmentOf(p, blob);
    forall x | s.dst <= x < s.dst + s.memsz
      ensures m[x] == if x < s.dst + s.filesz then m0[s.src + (x - s.dst)] else 0
    {
      assert s.Covers(x);
    }
  }

  /** After the load every LOAD entry of the file is at its place. */
  lemma {:induction false} LoadedEntries(m0: seq<Byte>, m: seq<Byte>, blob: nat, size: nat, e: Ehdr, ps: seq<Entry>,
                                         ss: seq<Segment>, dtb: nat, dtbSize: nat, dest: int)
    requires RangeInRam(m0, blob, size) && size >= 52 && Image(m0, blob, size, e, ps) && ValidElf(m0, blob, size)
    requires ss == Segments(m0, blob, size) && Loaded(m0, m, ss, dtb, dtbSize, dest)
    ensures forall i | 0 <= i < |ps| && ps[i].p_type == 1 :: AtItsPlace(m0, m, blob, ps[i])
  {
    hide Le16, Le32, EntryAt, PhdrAt, ToKseg0, ValidElf, Image, EhdrAt, Segments, Headers, AtItsPlace;
    HeadersRead(m0, blob, size, e, ps);
    forall i | 0 <= i < |ps| && ps[i].p_type == 1 ensures AtItsPlace(m0, m, blob, ps[i]) {
      OffsetNat(m0, blob, size, e, ps, i);
      assert ss[i] == SegmentOf(ps[i], blob) && Placed(m0, m, ss[i]);
      PlacedIsAtItsPlace(m0, m, blob, ps[i]);
    }
  }

  lemma {:induction false} OffsetNat(m: seq<Byte>, blob: nat, size: nat, e: Ehdr, ps: seq<Entry>, i: nat)
    requires RangeInRam(m, blob, size) && size >= 52 && Image(m, blob, size, e, ps) && ValidElf(m, blob, size)
    requires i < |ps|
    ensures ps[i].p_offset >= 0
  {
    hide Le16, Le32;
    ValidIff(m, blob, size, e, ps);
    assert EntryAt(m, blob + e.e_phoff + 32 * i, ps[i]);
  }
}
