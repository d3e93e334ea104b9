/**
 The boot log in a preallocated FAT file, boot/linux-loader.c: text goes through one sector
 buffer, and sectors are found by walking the cluster chain through a one-sector FAT cache.
 */
module FatLog {
  import opened CArithmetic
  import opened Options

  const SECTOR := 512
  const NONE := 0xffff_ffff

  type Sector = s: seq<Byte> | |s| == SECTOR witness seq(SECTOR, _ => 0)

  /** Reading or writing a sector that is not in the map fails and changes nothing. */
  type Disk = map<int, Sector>

  /** What the mounted volume and the opened file say; FAT16 is type 2, FAT32 type 3. */
  datatype Volume = Volume(fsType: int, fatBase: nat, dataBase: nat, clusterSize: nat, entries: nat, start: int)
  {
    /** Bytes of a FAT entry. */
    function Width(): nat {
      if fsType == 3 then 4 else 2
    }

    /** The FAT lies below the data area, and 32-bit sector numbers reach all of both. */
    predicate Valid() {
      && entries <= 0x1000_0000
      && fatBase + entries * Width() / SECTOR < dataBase
      && dataBase + entries * clusterSize < NONE
    }
  }

  // ----- the chain, read from the disk -----

  function Le16(s: Sector, off: nat): int
    requires off + 2 <= SECTOR
  {
    s[off] as int + 0x100 * s[off + 1] as int
  }

  function Le32(s: Sector, off: nat): int
    requires off + 4 <= SECTOR
  {
    Le16(s, off) + 0x1_0000 * Le16(s, off + 2)
  }

  /** What a FAT entry says about the cluster after it. */
  datatype Link = Bad | End | Next(cluster: int)

  function EntryLba(v: Volume, cluster: nat): int {
    v.fatBase + cluster * v.Width() / SECTOR
  }

  lemma {:induction false} EntryFits(cluster: nat)
    ensures cluster * 4 % SECTOR <= SECTOR - 4 && cluster * 2 % SECTOR <= SECTOR - 2
  {
    DivModUnique(cluster * 4, SECTOR, cluster / 128, cluster % 128 * 4);
    DivModUnique(cluster * 2, SECTOR, cluster / 256, cluster % 256 * 2);
  }

  /** The entry of a cluster in the FAT sector that holds it. */
  function Decode(v: Volume, s: Sector, cluster: nat): Link
    requires v.fsType == 2 || v.fsType == 3
  {
    EntryFits(cluster);
    var off := cluster * v.Width() % SECTOR;
    if v.fsType == 3 then
      var value := Le32(s, off) % 0x1000_0000;
      if value >= 0x0fff_fff8 then End else Next(value)
    else
      var value := Le16(s, off);
      if value >= 0xfff8 then End else Next(value)
  }

  function LinkOf(disk: Disk, v: Volume, cluster: int): Link {
    if cluster < 2 || cluster >= v.entries || (v.fsType != 2 && v.fsType != 3) then Bad
    else if EntryLba(v, cluster) !in disk then Bad
    else Decode(v, disk[EntryLba(v, cluster)], cluster)
  }

  /** The cluster at an index of the chain. */
  function Cluster(disk: Disk, v: Volume, i: nat): Option<int>
    decreases i
  {
    if i == 0 then Some(v.start)
    else match Cluster(disk, v, i - 1)
      case None => None
      case Some(c) => match LinkOf(disk, v, c)
        case Next(n) => Some(n)
        case _ => None
  }

  /** The disk sector of a file sector. */
  function Lba(disk: Disk, v: Volume, sector: nat): Option<int> {
    if v.clusterSize == 0 || v.start < 2 then None
    else match Cluster(disk, v, sector / v.clusterSize)
      case None => None
      case Some(c) =>
        if c < 2 || c >= v.entries then None
        else Some(v.dataBase + (c - 2) * v.clusterSize + sector % v.clusterSize)
  }

  lemma {:induction false} ClusterEnds(disk: Disk, v: Volume, i: nat, j: nat)
    requires i <= j && Cluster(disk, v, i).None?
    ensures Cluster(disk, v, j).None?
    decreases j
  {
    hide LinkOf;
    if i < j {
      ClusterEnds(disk, v, i, j - 1);
    }
  }

  /** Entries are in the FAT, file sectors in the data area. */
  lemma {:induction false} EntryInFat(v: Volume, cluster: nat)
    requires v.Valid() && cluster < v.entries
    ensures v.fatBase <= EntryLba(v, cluster) < v.dataBase
  {
    DivMonotone(cluster * v.Width(), v.entries * v.Width());
  }

  lemma {:induction false} DivMonotone(a: nat, b: nat)
    requires a <= b
    ensures a / SECTOR <= b / SECTOR
  {
  }

  lemma {:induction false} LbaInData(disk: Disk, v: Volume, sector: nat)
    requires v.Valid() && Lba(disk, v, sector).Some?
    ensures v.dataBase <= Lba(disk, v, sector).value < NONE
  {
    hide Cluster;
    var c := Cluster(disk, v, sector / v.clusterSize).value;
    DataAddress(c, sector % v.clusterSize, v.clusterSize, v.entries);
  }

  lemma {:induction false} DataAddress(c: int, r: nat, size: nat, entries: nat)
    requires 2 <= c < entries && r < size
    ensures 0 <= (c - 2) * size && (c - 2) * size + r < entries * size
  {
    assert (c - 1) * size <= entries * size;
    assert (c - 1) * size == (c - 2) * size + size;
  }

  // ----- writes to the data area leave the chain alone -----

  /** The two disks agree on the FAT. */
  ghost predicate SameFat(v: Volume, a: Disk, b: Disk) {
    forall lba | v.fatBase <= lba < v.dataBase :: (lba in a <==> lba in b) && (lba in a ==> a[lba] == b[lba])
  }

  lemma {:induction false} SameLink(v: Volume, a: Disk, b: Disk, cluster: int)
    requires v.Valid() && SameFat(v, a, b)
    ensures LinkOf(a, v, cluster) == LinkOf(b, v, cluster)
  {
    hide Decode, EntryLba, Volume.Valid;
    if 2 <= cluster < v.entries {
      EntryInFat(v, cluster);
    }
  }

  lemma {:induction false} SameCluster(v: Volume, a: Disk, b: Disk, i: nat)
    requires v.Valid() && SameFat(v, a, b)
    ensures Cluster(a, v, i) == Cluster(b, v, i)
    decreases i
  {
    hide LinkOf, Volume.Valid, SameFat;
    if i > 0 {
      SameCluster(v, a, b, i - 1);
      if Cluster(a, v, i - 1).Some? {
        SameLink(v, a, b, Cluster(a, v, i - 1).value);
      }
    }
  }

  lemma {:induction false} SameLba(v: Volume, a: Disk, b: Disk, sector: nat)
    requires v.Valid() && SameFat(v, a, b)
    ensures Lba(a, v, sector) == Lba(b, v, sector)
  {
    hide Cluster, Volume.Valid, SameFat;
    if v.clusterSize != 0 {
      SameCluster(v, a, b, sector / v.clusterSize);
    }
  }

  // ----- a chain that ends has no loops -----

  ghost predicate ChainEnds(disk: Disk, v: Volume, length: nat) {
    && length > 0
    && Cluster(disk, v, length - 1).Some?
    && LinkOf(disk, v, Cluster(disk, v, length - 1).value) == End
  }

  lemma {:induction false} ClusterExists(disk: Disk, v: Volume, i: nat, j: nat)
    requires i <= j && Cluster(disk, v, j).Some?
    ensures Cluster(disk, v, i).Some?
  {
    hide Cluster;
    if Cluster(disk, v, i).None? {
      ClusterEnds(disk, v, i, j);
    }
  }

  /** Once two places in the chain agree, so do all later ones. */
  lemma {:induction false} ClusterRepeats(disk: Disk, v: Volume, i: nat, j: nat, k: nat)
    requires Cluster(disk, v, i) == Cluster(disk, v, j)
    ensures Cluster(disk, v, i + k) == Cluster(disk, v, j + k)
    decreases k
  {
    hide LinkOf;
    if k > 0 {
      ClusterRepeats(disk, v, i, j, k - 1);
    }
  }

  lemma {:induction false} EndedChainIsAcyclic(disk: Disk, v: Volume, length: nat, i: nat, j: nat)
    requires ChainEnds(disk, v, length) && i < j < length
    ensures Cluster(disk, v, i) != Cluster(disk, v, j)
  {
    hide LinkOf;
    if Cluster(disk, v, i) == Cluster(disk, v, j) {
      var k := length - 1 - j;
      ClusterRepeats(disk, v, i, j, k);
      ClusterExists(disk, v, i + k + 1, length - 1);
      assert false;
    }
  }

  /** A chain of `length` clusters has a disk sector for every sector of a file that long. */
  lemma {:induction false} EndedChainReaches(disk: Disk, v: Volume, length: nat, sector: nat)
    requires ChainEnds(disk, v, length) && sector < length * v.clusterSize
    ensures Lba(disk, v, sector).Some?
  {
    hide Cluster;
    QuotientBelow(sector, length, v.clusterSize);
    LinkedClusterValid(disk, v, length, sector / v.clusterSize);
    LinkedClusterValid(disk, v, length, 0);
    FirstCluster(disk, v);
  }

  lemma {:induction false} QuotientBelow(sector: nat, length: nat, size: nat)
    requires sector < length * size
    ensures size > 0 && sector / size < length
  {
    var d := sector / size - length;
    assert sector - length * size == d * size + sector % size;
    MulApart(d, size);
  }

  lemma {:induction false} FirstCluster(disk: Disk, v: Volume)
    ensures Cluster(disk, v, 0) == Some(v.start)
  {
  }

  lemma {:induction false} LinkedClusterValid(disk: Disk, v: Volume, length: nat, i: nat)
    requires ChainEnds(disk, v, length) && i < length
    ensures Cluster(disk, v, i).Some? && 2 <= Cluster(disk, v, i).value < v.entries
  {
    hide Decode;
    ClusterExists(disk, v, i, length - 1);
    if i < length - 1 {
      ClusterExists(disk, v, i + 1, length - 1);
    }
  }

  /** Different file sectors are different disk sectors. */
  ghost predicate Distinct(disk: Disk, v: Volume) {
    forall a: nat, b: nat | a < b && Lba(disk, v, b).Some? :: Lba(disk, v, a) != Lba(disk, v, b)
  }

  lemma {:induction false} EndedChainIsDistinct(disk: Disk, v: Volume, length: nat)
    requires ChainEnds(disk, v, length)
    ensures Distinct(disk, v)
  {
    hide ChainEnds, Lba;
    forall a: nat, b: nat | a < b && Lba(disk, v, b).Some? ensures Lba(disk, v, a) != Lba(disk, v, b) {
      SectorsDiffer(disk, v, length, a, b);
    }
  }

  lemma {:induction false} SectorsDiffer(disk: Disk, v: Volume, length: nat, a: nat, b: nat)
    requires ChainEnds(disk, v, length) && a < b && Lba(disk, v, b).Some?
    ensures Lba(disk, v, a) != Lba(disk, v, b)
  {
    hide ChainEnds, Cluster;
    var size := v.clusterSize;
    var i, j := a / size, b / size;
    QuotientOrder(a, b, size);
    if i < j {
      EndBounds(disk, v, length, j);
      EndedChainIsAcyclic(disk, v, length, i, j);
      if Lba(disk, v, a).Some? {
        AddressesDiffer(Cluster(disk, v, i).value, a % size, Cluster(disk, v, j).value, b % size, size);
      }
    }
  }

  lemma {:induction false} QuotientOrder(a: nat, b: nat, size: nat)
    requires size > 0 && a < b
    ensures a / size < b / size || (a / size == b / size && a % size < b % size)
  {
    var d := b / size - a / size;
    assert b - a == d * size + (b % size - a % size);
    MulApart(d, size);
  }

  lemma {:induction false} EndBounds(disk: Disk, v: Volume, length: nat, j: nat)
    requires ChainEnds(disk, v, length) && Cluster(disk, v, j).Some?
    ensures j < length
  {
    hide LinkOf;
    if j >= length {
      ClusterExists(disk, v, length, j);
      assert false;
    }
  }

  lemma {:induction false} AddressesDiffer(c: int, r: nat, d: int, q: nat, size: nat)
    requires c != d && r < size && q < size
    ensures (c - 2) * size + r != (d - 2) * size + q
  {
    var e := c - d;
    assert (c - 2) * size - (d - 2) * size == e * size;
    MulApart(e, size);
  }

  // ----- what the file should hold -----

  /** Sector `s` of the text, zero-filled. */
  function Padded(text: seq<Byte>, s: nat): (p: Sector) {
    seq(SECTOR, i requires 0 <= i < SECTOR => if SECTOR * s + i < |text| then text[SECTOR * s + i] else 0)
  }

  /** Sector `s` of the file holds the text, if the chain and the disk have such a sector. */
  ghost predicate OnDisk(disk: Disk, chain: Disk, v: Volume, text: seq<Byte>, s: nat) {
    var lba := Lba(chain, v, s);
    lba.Some? && lba.value in disk ==> disk[lba.value] == Padded(text, s)
  }

  lemma {:induction false} PaddedStays(text: seq<Byte>, ch: Byte, s: nat)
    requires SECTOR * (s + 1) <= |text|
    ensures Padded(text + [ch], s) == Padded(text, s)
  {
  }

  /** Writing one file sector leaves the others alone. */
  lemma {:induction false} WriteOne(disk: Disk, chain: Disk, v: Volume, text: seq<Byte>, s: nat, t: nat, data: Sector)
    requires Distinct(chain, v) && s != t && OnDisk(disk, chain, v, text, s)
    ensures var lba := Lba(chain, v, t);
            lba.Some? && lba.value in disk ==> OnDisk(disk[lba.value := data], chain, v, text, s)
  {
    hide Lba, Padded;
    if s < t {
      assert Lba(chain, v, t).Some? ==> Lba(chain, v, s) != Lba(chain, v, t);
    } else {
      assert Lba(chain, v, s).Some? ==> Lba(chain, v, t) != Lba(chain, v, s);
    }
  }

  /** The next character goes behind the text; the rest of its sector is zero before and after. */
  lemma {:induction false} PaddedPut(text: seq<Byte>, ch: Byte)
    ensures var s, off := |text| / SECTOR, |text| % SECTOR;
            && Padded(text, s)[off := ch] == Padded(text + [ch], s)
            && (off + 1 < SECTOR ==> Padded(text + [ch], s)[off + 1] == 0)
            && Padded(text, s)[off] == 0
            && (off == 0 ==> Padded(text, s) == seq(SECTOR, _ => 0))
  {
    var s, off := |text| / SECTOR, |text| % SECTOR;
    assert |text| == SECTOR * s + off;
  }

  /** All of the first `n` sectors are on the disk. */
  ghost predicate AllOnDisk(disk: Disk, chain: Disk, v: Volume, text: seq<Byte>, n: nat) {
    forall s: nat | s < n :: OnDisk(disk, chain, v, text, s)
  }

  /** Only sectors of the file that hold text differ from the original disk. */
  ghost predicate OnlyFile(disk: Disk, chain: Disk, v: Volume, length: nat) {
    forall lba | lba in disk && lba in chain && disk[lba] != chain[lba] :: InFile(chain, v, length, lba)
  }

  ghost predicate InFile(chain: Disk, v: Volume, length: nat, lba: int) {
    exists s: nat :: SECTOR * s < length && Lba(chain, v, s) == Some(lba)
  }

  /** The disk after `bootlog_flush_current` of sector `t`. */
  function Stored(disk: Disk, chain: Disk, v: Volume, t: nat, data: Sector): Disk {
    var lba := Lba(chain, v, t);
    if lba.Some? && lba.value in disk then disk[lba.value := data] else disk
  }

  lemma {:induction false} StoredKeeps(disk: Disk, chain: Disk, v: Volume, text: seq<Byte>, t: nat)
    requires Distinct(chain, v) && AllOnDisk(disk, chain, v, text, t)
    ensures AllOnDisk(Stored(disk, chain, v, t, Padded(text, t)), chain, v, text, t + 1)
  {
    hide Distinct, Lba, Padded;
    forall s: nat | s < t ensures OnDisk(Stored(disk, chain, v, t, Padded(text, t)), chain, v, text, s) {
      WriteOne(disk, chain, v, text, s, t, Padded(text, t));
    }
  }

  lemma {:induction false} StoredOnlyFile(disk: Disk, chain: Disk, v: Volume, length: nat, t: nat, data: Sector)
    requires OnlyFile(disk, chain, v, length) && SECTOR * t < length
    ensures OnlyFile(Stored(disk, chain, v, t, data), chain, v, length)
  {
    hide Lba;
    var after := Stored(disk, chain, v, t, data);
    forall lba | lba in after && lba in chain && after[lba] != chain[lba] ensures InFile(chain, v, length, lba) {
      assert lba in disk && (after[lba] == disk[lba] || Lba(chain, v, t) == Some(lba));
    }
  }

  lemma {:induction false} AllOnDiskLonger(disk: Disk, chain: Disk, v: Volume, text: seq<Byte>, ch: Byte, n: nat)
    requires AllOnDisk(disk, chain, v, text, n) && SECTOR * n <= |text|
    ensures AllOnDisk(disk, chain, v, text + [ch], n)
  {
    hide Lba, Padded;
    forall s: nat | s < n ensures OnDisk(disk, chain, v, text + [ch], s) {
      assert OnDisk(disk, chain, v, text, s);
      PaddedStays(text, ch, s);
    }
  }

  lemma {:induction false} OnlyFileLonger(disk: Disk, chain: Disk, v: Volume, length: nat)
    requires OnlyFile(disk, chain, v, length)
    ensures OnlyFile(disk, chain, v, length + 1)
  {
    hide Lba;
    forall lba | InFile(chain, v, length, lba) ensures InFile(chain, v, length + 1, lba) {
      var s: nat :| SECTOR * s < length && Lba(chain, v, s) == Some(lba);
      assert SECTOR * s < length + 1;
    }
  }

  // ----- the code -----

  class BootLog {
    const volume: Volume
    const ready: bool
    const limit: nat
    var disk: Disk
    const sector: array<Byte>
    var fatSector: Sector
    var fatLba: int
    var sectorIndex: int
    var pos: nat

    /** The disk as it was when the file was opened, and the text accepted since. */
    ghost const original: Disk
    ghost var text: seq<Byte>

    /** `bootlog_init`; without an opened file nothing is ever logged. */
    constructor (volume: Volume, limit: nat, disk: Disk, fileOpen: bool, ghost chainLength: nat)
      requires fileOpen ==> volume.Valid() && limit < SECTOR * NONE && ChainEnds(disk, volume, chainLength)
      ensures Valid() && ready == fileOpen && text == [] && fresh(sector)
      ensures this.volume == volume && this.limit == limit && original == disk
    {
      this.volume, this.limit, this.disk, this.original, this.ready := volume, limit, disk, disk, fileOpen;
      sector := new Byte[SECTOR](_ => 0);
      fatSector := seq(SECTOR, _ => 0);
      fatLba, sectorIndex, pos, text := NONE, NONE, 0, [];
      if fileOpen {
        EndedChainIsDistinct(disk, volume, chainLength);
      }
    }

    /** The cached FAT sector is what the disk holds there. */
    ghost predicate Coherent()
      reads this
    {
      && volume.Valid()
      && (fatLba != NONE ==>
            volume.fatBase <= fatLba < volume.dataBase && fatLba in disk && fatSector == disk[fatLba])
    }

    ghost predicate Chained()
      reads this
    {
      && Coherent() && limit < SECTOR * NONE && sector.Length == SECTOR
      && disk.Keys == original.Keys && SameFat(volume, original, disk) && Distinct(original, volume)
    }

    /** Nothing is logged without a file. */
    ghost predicate Valid()
      reads this, sector
    {
      if ready then Logging() else text == [] && disk == original
    }

    /** The text so far is on the disk but for the last, partial sector, which is in the buffer. */
    ghost predicate Logging()
      reads this, sector
    {
      && Chained()
      && pos == |text| <= limit
      && (sectorIndex == if pos % SECTOR == 0 then NONE else pos / SECTOR)
      && (sectorIndex != NONE ==> sector[..] == Padded(text, pos / SECTOR))
      && AllOnDisk(disk, original, volume, text, pos / SECTOR)
      && OnlyFile(disk, original, volume, pos)
    }

    /** The cache of `log_fat_next`. */
    method LoadFat(lba: int) returns (ok: bool)
      requires Coherent() && volume.fatBase <= lba < volume.dataBase
      modifies this`fatSector, this`fatLba
      ensures Coherent() && ok == (lba in disk) && (ok ==> fatSector == disk[lba])
    {
      if lba != fatLba {
        if lba !in disk {
          return false;
        }
        fatSector := disk[lba];
        fatLba := lba;
      }
      return true;
    }

    /** The entry in the cached sector; end of chain is 1. */
    method ReadEntry(cluster: nat) returns (ret: int, next: int)
      requires (volume.fsType == 2 || volume.fsType == 3) && cluster < 0x1000_0000
      ensures match Decode(volume, fatSector, cluster)
              case Bad => false
              case End => ret == 1
              case Next(n) => ret == 0 && next == n
    {
      hide Le32, Le16;
      EntryFits(cluster);
      if volume.fsType == 3 {
        var value := Le32(fatSector, cluster * 4 % SECTOR) % 0x1000_0000;
        if value >= 0x0fff_fff8 {
          return 1, 0;
        }
        return 0, value;
      }
      var value := Le16(fatSector, cluster * 2 % SECTOR);
      if value >= 0xfff8 {
        return 1, 0;
      }
      return 0, value;
    }

    /** `log_fat_next`: the cached answer is the one on the disk. */
    method FatNext(cluster: nat) returns (ret: int, next: int)
      requires Coherent()
      modifies this`fatSector, this`fatLba
      ensures Coherent()
      ensures match LinkOf(disk, volume, cluster)
              case Bad => ret < 0
              case End => ret == 1
              case Next(n) => ret == 0 && next == n
    {
      hide Decode, EntryLba, EntryLba32, Volume.Valid;
      if cluster < 2 || cluster >= volume.entries {
        return -1, 0;
      }
      if volume.fsType != 3 && volume.fsType != 2 {
        return -1, 0;
      }
      NoWrap(volume, cluster);
      var ok := LoadFat(EntryLba32(volume, cluster));
      if !ok {
        return -1, 0;
      }
      ret, next := ReadEntry(cluster);
    }

    /** `log_file_lba`: the walk through the cache finds the sector the chain on the disk leads to. */
    method FileLba(fileSector: nat) returns (ret: int, lba: int)
      requires Coherent()
      modifies this`fatSector, this`fatLba
      ensures Coherent()
      ensures match Lba(disk, volume, fileSector)
              case None => ret < 0
              case Some(l) => ret == 0 && lba == l
    {
      hide LinkOf, Volume.Valid;
      var cluster := volume.start;
      if volume.clusterSize == 0 || cluster < 2 {
        return -1, 0;
      }
      var index := fileSector / volume.clusterSize;
      var inCluster := fileSector % volume.clusterSize;
      var left := index;
      while left != 0
        invariant Coherent() && 0 <= left <= index && cluster >= 0
        invariant Cluster(disk, volume, index - left) == Some(cluster)
      {
        var r, next := FatNext(cluster);
        LinkIsNat(disk, volume, cluster);
        if r != 0 {
          ClusterEnds(disk, volume, index - left + 1, index);
          return -1, 0;
        }
        cluster := next;
        left := left - 1;
      }
      if cluster < 2 || cluster >= volume.entries {
        return -1, 0;
      }
      lba := volume.dataBase + (cluster - 2) * volume.clusterSize + inCluster;
      LbaInData(disk, volume, fileSector);
      return 0, Wrap32(lba);
    }

    /** `bootlog_flush_current`. */
    method FlushCurrent()
      requires Chained()
      modifies this`fatSector, this`fatLba, this`disk
      ensures Chained()
      ensures sectorIndex == NONE ==> disk == old(disk)
      ensures sectorIndex >= 0 && sectorIndex != NONE ==>
                disk == if ready then Stored(old(disk), original, volume, sectorIndex, sector[..]) else old(disk)
    {
      hide Lba, Volume.Valid, Distinct;
      if !ready || sectorIndex == NONE || sectorIndex < 0 {
        return;
      }
      var ret, lba := FileLba(sectorIndex);
      SameLba(volume, original, disk, sectorIndex);
      if ret != 0 {
        return;
      }
      LbaInData(disk, volume, sectorIndex);
      if lba in disk {
        disk := disk[lba := sector[..]];
      }
    }

    /** `bootlog_open_sector`. */
    method OpenSector(index: int)
      requires Logging() && ready && index == pos / SECTOR
      modifies this`fatSector, this`fatLba, this`disk, this`sectorIndex, sector
      ensures Chained() && sectorIndex == index && disk == old(disk)
      ensures sector[..] == Padded(text, pos / SECTOR)
    {
      hide Distinct, SameFat, Volume.Valid, AllOnDisk, OnlyFile, Padded;
      if index == sectorIndex {
        return;
      }
      FlushCurrent();
      forall i | 0 <= i < SECTOR {
        sector[i] := 0;
      }
      sectorIndex := index;
      PaddedPut(text, 0);
      assert sector[..] == seq(SECTOR, _ => 0);
    }

    /** `bootlog_putc`: characters are accepted up to the limit. */
    method PutC(ch: Byte)
      requires Valid()
      modifies this, sector
      ensures Valid()
      ensures text == if ready && |old(text)| < limit then old(text) + [ch] else old(text)
    {
      hide Distinct, SameFat, Volume.Valid, AllOnDisk, OnlyFile, Padded, Lba, Stored;
      if !ready || pos >= limit {
        return;
      }
      OpenSector(pos / SECTOR);
      var off := pos % SECTOR;
      PaddedPut(text, ch);
      AllOnDiskLonger(disk, original, volume, text, ch, pos / SECTOR);
      OnlyFileLonger(disk, original, volume, pos);
      sector[off] := ch;
      text := text + [ch];
      ghost var s := pos / SECTOR;
      pos := pos + 1;
      assert sector[..] == Padded(text, s);
      if pos % SECTOR == 0 {
        StoredKeeps(disk, original, volume, text, s);
        StoredOnlyFile(disk, original, volume, pos, s, sector[..]);
        FlushCurrent();
        sectorIndex := NONE;
      } else if off + 1 < SECTOR {
        sector[off + 1] := 0;
        assert sector[..] == Padded(text, s);
      }
    }

    /** `bootlog_flush`: now the file holds the whole text, zero-filled to the end of its last sector. */
    method Flush()
      requires Valid()
      modifies this`fatSector, this`fatLba, this`disk, sector
      ensures Valid()
      ensures ready ==> AllOnDisk(disk, original, volume, text, (|text| + SECTOR - 1) / SECTOR)
    {
      hide Distinct, SameFat, Volume.Valid, AllOnDisk, OnlyFile, Padded, Coherent, Lba, Stored;
      if !ready || sectorIndex == NONE {
        return;
      }
      var off := pos % SECTOR;
      PaddedPut(text, 0);
      sector[off] := 0;
      assert sector[..] == Padded(text, pos / SECTOR);
      StoredKeeps(disk, original, volume, text, pos / SECTOR);
      StoredOnlyFile(disk, original, volume, pos, pos / SECTOR, sector[..]);
      FlushCurrent();
      Fewer(disk, original, volume, text, pos / SECTOR);
    }

    /** `bootlog_puts`. */
    method PutS(s: seq<Byte>)
      requires Valid()
      modifies this, sector
      ensures Valid()
      ensures text == if !ready then old(text)
                      else if |old(text)| + |s| <= limit then old(text) + s
                      else old(text) + s[..limit - |old(text)|]
    {
      hide Chained, AllOnDisk, OnlyFile, Padded;
      var i := 0;
      while i < |s|
        invariant 0 <= i <= |s| && Valid() && (ready ==> |old(text)| <= limit)
        invariant text == if !ready then old(text)
                          else if |old(text)| + i <= limit then old(text) + s[..i]
                          else old(text) + s[..limit - |old(text)|]
      {
        PutC(s[i]);
        i := i + 1;
      }
      assert s[..|s|] == s;
    }
  }

  lemma {:induction false} Fewer(disk: Disk, chain: Disk, v: Volume, text: seq<Byte>, n: nat)
    requires AllOnDisk(disk, chain, v, text, n + 1)
    ensures AllOnDisk(disk, chain, v, text, n)
  {
  }

  lemma {:induction false} LinkIsNat(disk: Disk, v: Volume, cluster: int)
    ensures LinkOf(disk, v, cluster).Next? ==> LinkOf(disk, v, cluster).cluster >= 0
  {
  }

  /** The sector number as `log_fat_next` computes it, in 32 bits. */
  function EntryLba32(v: Volume, cluster: nat): int {
    Wrap32(v.fatBase + Wrap32(cluster * v.Width()) / SECTOR)
  }

  /** The 32-bit sums do not wrap. */
  lemma {:induction false} NoWrap(v: Volume, cluster: nat)
    requires v.Valid() && cluster < v.entries
    ensures EntryLba32(v, cluster) == EntryLba(v, cluster)
    ensures v.fatBase <= EntryLba(v, cluster) < v.dataBase && cluster < 0x1000_0000
  {
    EntryInFat(v, cluster);
  }
}
