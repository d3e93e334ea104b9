/**
 The boot log's cluster walk over the bytes of a FAT, boot/linux-loader.c: FAT16 entries are two
 bytes, FAT32 entries four of which the top four bits are reserved, low byte first.
 */
module FatBytes {
  import opened CArithmetic
  import opened Options
  import opened FatLog

  /** Byte `o` of the FAT. */
  predicate ByteIs(disk: Disk, v: Volume, o: nat, b: int) {
    var lba := v.fatBase + o / SECTOR;
    lba in disk && disk[lba][o % SECTOR] == b
  }

  /** The entry of cluster `c` names cluster `next`. */
  predicate Names(disk: Disk, v: Volume, c: nat, next: nat) {
    if v.fsType == 3 then
      && next < 0x0fff_fff8
      && ByteIs(disk, v, 4 * c, next % 0x100) && ByteIs(disk, v, 4 * c + 1, next / 0x100 % 0x100)
      && ByteIs(disk, v, 4 * c + 2, next / 0x1_0000 % 0x100)
      && exists top :: 0 <= top < 16 && ByteIs(disk, v, 4 * c + 3, TopByte(top, next))
    else
      next < 0xfff8 && ByteIs(disk, v, 2 * c, next % 0x100) && ByteIs(disk, v, 2 * c + 1, next / 0x100)
  }

  /** Reserved bits above the highest bits of a cluster number. */
  function TopByte(top: int, next: int): int {
    16 * top + next / 0x100_0000
  }

  /** The entry of cluster `c` is an end mark. */
  predicate Ends(disk: Disk, v: Volume, c: nat) {
    if v.fsType == 3 then
      && (exists low :: 0xf8 <= low <= 0xff && ByteIs(disk, v, 4 * c, low))
      && ByteIs(disk, v, 4 * c + 1, 0xff) && ByteIs(disk, v, 4 * c + 2, 0xff)
      && exists top :: 0 <= top < 16 && ByteIs(disk, v, 4 * c + 3, TopByte(top, 0x0fff_ffff))
    else
      (exists low :: 0xf8 <= low <= 0xff && ByteIs(disk, v, 2 * c, low)) && ByteIs(disk, v, 2 * c + 1, 0xff)
  }

  /** The clusters `cs` of a file as the FAT links them. */
  predicate Chain(disk: Disk, v: Volume, cs: seq<nat>) {
    && (v.fsType == 2 || v.fsType == 3)
    && cs != [] && v.start == cs[0]
    && (forall i | 0 <= i < |cs| :: 2 <= cs[i] < v.entries)
    && (forall i | 0 <= i < |cs| - 1 :: Names(disk, v, cs[i], cs[i + 1]))
    && Ends(disk, v, cs[|cs| - 1])
  }

  /** The bytes of an entry lie in one sector. */
  lemma {:induction false} SameSector(o: nat, k: nat, width: nat)
    requires (width == 2 || width == 4) && o % width == 0 && k < width
    ensures (o + k) / SECTOR == o / SECTOR && (o + k) % SECTOR == o % SECTOR + k
  {
    var q, r := o / SECTOR, o % SECTOR;
    assert r % width == 0 by {
      assert o == 128 * 4 * q + r;
    }
    DivModUnique(o + k, SECTOR, q, r + k);
  }

  lemma {:induction false} Multiples(c: nat)
    ensures 2 * c % 2 == 0 && 4 * c % 4 == 0
  {
  }

  lemma {:induction false} Read16(disk: Disk, v: Volume, c: nat, b0: int, b1: int)
    requires v.fsType == 2 && ByteIs(disk, v, 2 * c, b0) && ByteIs(disk, v, 2 * c + 1, b1)
    ensures EntryLba(v, c) in disk && 2 * c % SECTOR + 2 <= SECTOR
    ensures Le16(disk[EntryLba(v, c)], 2 * c % SECTOR) == b0 + 0x100 * b1
  {
    Multiples(c);
    SameSector(2 * c, 1, 2);
    assert c * v.Width() == 2 * c;
  }

  lemma {:induction false} Read32(disk: Disk, v: Volume, c: nat, b0: int, b1: int, b2: int, b3: int)
    requires v.fsType == 3 && ByteIs(disk, v, 4 * c, b0) && ByteIs(disk, v, 4 * c + 1, b1)
    requires ByteIs(disk, v, 4 * c + 2, b2) && ByteIs(disk, v, 4 * c + 3, b3)
    ensures EntryLba(v, c) in disk && 4 * c % SECTOR + 4 <= SECTOR
    ensures Le32(disk[EntryLba(v, c)], 4 * c % SECTOR) == b0 + 0x100 * b1 + 0x1_0000 * b2 + 0x100_0000 * b3
  {
    Multiples(c);
    SameSector(4 * c, 1, 4);
    SameSector(4 * c, 2, 4);
    SameSector(4 * c, 3, 4);
    assert c * v.Width() == 4 * c;
  }

  lemma {:induction false} Assemble(next: nat)
    ensures next < 0x1_0000 ==> next % 0x100 + 0x100 * (next / 0x100) == next
    ensures next < U32 ==>
      next % 0x100 + 0x100 * (next / 0x100 % 0x100) + 0x1_0000 * (next / 0x1_0000 % 0x100)
      + 0x100_0000 * (next / 0x100_0000) == next
  {
    var q1, q2 := next / 0x100, next / 0x1_0000;
    assert q2 == q1 / 0x100 && next / 0x100_0000 == q2 / 0x100;
  }

  /** The reserved bits are masked off. */
  lemma {:induction false} Masked(value: int, top: int)
    requires 0 <= value < 0x1000_0000
    ensures (value + 0x1000_0000 * top) % 0x1000_0000 == value
  {
    DivModUnique(value + 0x1000_0000 * top, 0x1000_0000, top, value);
  }

  /** The loader's link for an entry that names a cluster. */
  lemma {:induction false} NamesLink(disk: Disk, v: Volume, c: nat, next: nat)
    requires (v.fsType == 2 || v.fsType == 3) && 2 <= c < v.entries && Names(disk, v, c, next)
    ensures LinkOf(disk, v, c) == Next(next)
  {
    hide Le16, Le32, ByteIs, EntryLba;
    Assemble(next);
    if v.fsType == 3 {
      var top :| 0 <= top < 16 && ByteIs(disk, v, 4 * c + 3, TopByte(top, next));
      Read32(disk, v, c, next % 0x100, next / 0x100 % 0x100, next / 0x1_0000 % 0x100, TopByte(top, next));
      Masked(next, top);
      assert c * v.Width() == 4 * c;
    } else {
      Read16(disk, v, c, next % 0x100, next / 0x100);
      assert c * v.Width() == 2 * c;
    }
  }

  lemma {:induction false} EndsLink(disk: Disk, v: Volume, c: nat)
    requires (v.fsType == 2 || v.fsType == 3) && 2 <= c < v.entries && Ends(disk, v, c)
    ensures LinkOf(disk, v, c) == End
  {
    hide Le16, Le32, ByteIs, EntryLba;
    if v.fsType == 3 {
      var low :| 0xf8 <= low <= 0xff && ByteIs(disk, v, 4 * c, low);
      var top :| 0 <= top < 16 && ByteIs(disk, v, 4 * c + 3, TopByte(top, 0x0fff_ffff));
      Read32(disk, v, c, low, 0xff, 0xff, TopByte(top, 0x0fff_ffff));
      Masked(low + 0x0fff_ff00, top);
      assert c * v.Width() == 4 * c;
    } else {
      var low :| 0xf8 <= low <= 0xff && ByteIs(disk, v, 2 * c, low);
      Read16(disk, v, c, low, 0xff);
      assert c * v.Width() == 2 * c;
    }
  }

  /** The walk follows the chain, and ends with it. */
  lemma {:induction false} WalkFollows(disk: Disk, v: Volume, cs: seq<nat>, i: nat)
    requires Chain(disk, v, cs)
    ensures Cluster(disk, v, i) == if i < |cs| then Some(cs[i]) else None
    decreases i
  {
    hide LinkOf, Names, Ends;
    if i > 0 {
      WalkFollows(disk, v, cs, i - 1);
      if i < |cs| {
        NamesLink(disk, v, cs[i - 1], cs[i - 1 + 1]);
      } else if i == |cs| {
        EndsLink(disk, v, cs[i - 1]);
      }
    }
  }

  /** Such a file is what the log needs. */
  lemma {:induction false} ChainHasEnd(disk: Disk, v: Volume, cs: seq<nat>)
    requires Chain(disk, v, cs)
    ensures ChainEnds(disk, v, |cs|)
  {
    hide LinkOf, Names, Ends, Cluster;
    WalkFollows(disk, v, cs, |cs| - 1);
    EndsLink(disk, v, cs[|cs| - 1]);
  }

  /**
   Sector `s` of a file with clusters `cs` is sector `s mod clusterSize` of cluster
   `cs[s / clusterSize]`, and beyond the last cluster there is none.
   */
  lemma {:induction false} SectorOfChain(disk: Disk, v: Volume, cs: seq<nat>, s: nat)
    requires Chain(disk, v, cs) && v.clusterSize > 0
    ensures s < |cs| * v.clusterSize ==>
      && s / v.clusterSize < |cs|
      && Lba(disk, v, s) == Some(v.dataBase + (cs[s / v.clusterSize] - 2) * v.clusterSize + s % v.clusterSize)
    ensures s >= |cs| * v.clusterSize ==> Lba(disk, v, s) == None
  {
    hide Names, Ends, Cluster;
    WalkFollows(disk, v, cs, s / v.clusterSize);
    if s < |cs| * v.clusterSize {
      QuotientBelow(s, |cs|, v.clusterSize);
    } else {
      QuotientAtLeast(s, |cs|, v.clusterSize);
    }
  }

  lemma {:induction false} QuotientAtLeast(s: nat, length: nat, size: nat)
    requires size > 0 && s >= length * size
    ensures s / size >= length
  {
    var d := s / size - length;
    assert s - length * size == d * size + s % size;
    MulApart(d, size);
  }

  /** `log_file_lba` on such a file. */
  method FindSector(log: BootLog, ghost cs: seq<nat>, s: nat) returns (ret: int, lba: int)
    requires log.Coherent() && Chain(log.disk, log.volume, cs) && log.volume.clusterSize > 0
    modifies log`fatSector, log`fatLba
    ensures log.Coherent()
    ensures var size := log.volume.clusterSize;
            if s < |cs| * size then
              s / size < |cs| && ret == 0 && lba == log.volume.dataBase + (cs[s / size] - 2) * size + s % size
            else ret < 0
  {
    hide Lba, Chain;
    SectorOfChain(log.disk, log.volume, cs, s);
    ret, lba := log.FileLba(s);
  }
}
