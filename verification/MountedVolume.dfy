/** What the mount code makes of boot sectors others have written, with one table or two (find_volume in ff.c). */
module MountedVolume {
  import opened Options
  import opened FatEntries
  import opened FormatLayout
  import Bytes
  import BootSector
  import FatVolume
  import FreshVolume
  import F = Format

  /** The widths of the fields in a boot sector. */
  ghost predicate Stored(b: Bpb) {
    && b.rsvdSecCnt < 0x1_0000 && b.rootEntCnt < 0x1_0000 && b.totSec16 < 0x1_0000 && b.fatSz16 < 0x1_0000
    && b.totSec32 < 0x1_0000_0000 && b.fatSz32 < 0x1_0000_0000
  }

  function TableSectors(b: Bpb): nat { if b.fatSz16 == 0 then b.fatSz32 else b.fatSz16 }
  function TotalSectors(b: Bpb): nat { if b.totSec16 == 0 then b.totSec32 else b.totSec16 }

  /** Sectors before the data area: the reserved ones, every table, and the fixed root directory's 32-byte entries. */
  function SystemSectors(b: Bpb, ss: nat): nat
    requires SectorSize(ss)
  {
    b.rsvdSecCnt + (if b.numFats == 2 then 2 * TableSectors(b) else TableSectors(b)) + b.rootEntCnt * 32 / ss
  }

  /** The areas lie in the volume, one behind the other, and the data area has clusters whose numbers FAT32 can hold. */
  ghost predicate AddsUp(b: Bpb, ss: nat)
    requires SectorSize(ss)
  {
    && SystemSectors(b, ss) <= TotalSectors(b)
    && TotalSectors(b) - SystemSectors(b, ss) < (MAX_FAT32 + 1) * b.secPerClus
  }

  /** Clusters of a volume whose areas add up. */
  function Clusters(b: Bpb, ss: nat): nat
    requires SectorSize(ss) && AddsUp(b, ss)
  {
    (TotalSectors(b) - SystemSectors(b, ss)) / b.secPerClus
  }

  /** The fields the mount code looks at before it counts clusters. */
  ghost predicate Sensible(b: Bpb, ss: nat)
    requires SectorSize(ss)
  {
    && b.bytsPerSec == ss && (b.numFats == 1 || b.numFats == 2) && ClusterSize(b.secPerClus)
    && b.rsvdSecCnt > 0 && b.rootEntCnt % (ss / 32) == 0
  }

  /** What else the mount code asks of such a volume: it has a cluster and a table with room for all entries, and the
      number of clusters says whether the root directory is fixed. */
  ghost predicate Mountable(b: Bpb, ss: nat)
    requires SectorSize(ss) && AddsUp(b, ss)
  {
    && Sensible(b, ss) && Clusters(b, ss) >= 1
    && (b.rootEntCnt == 0 <==> Clusters(b, ss) > MAX_FAT16) && (b.rootEntCnt == 0 ==> b.fsVer == 0)
    && TableBytes(TypeOf(Clusters(b, ss)), Clusters(b, ss) + 2) <= TableSectors(b) * ss
  }

  /** The volume the fields describe. */
  function Described(b: Bpb, ss: nat, bsect: nat): Volume
    requires SectorSize(ss) && AddsUp(b, ss)
  {
    var t, fatbase, database := TypeOf(Clusters(b, ss)), bsect + b.rsvdSecCnt, bsect + SystemSectors(b, ss);
    Volume(t, b.secPerClus, b.numFats, TableSectors(b), Clusters(b, ss) + 2, b.rootEntCnt, bsect, fatbase, database,
        if t == Fat32 then b.rootClus else database - b.rootEntCnt * 32 / ss, t == Fat32 && b.fsInfo == 1)
  }

  lemma RootDirectory(ents: nat, ss: nat)
    requires SectorSize(ss) && ents < 0x1_0000
    ensures ents * 32 / ss <= 0x1000 && (ents % (ss / 32) == 0 ==> ents / (ss / 32) == ents * 32 / ss)
  {
    if ss == 512 {
    } else if ss == 1024 {
    } else if ss == 2048 {
    } else {
      assert ss == 4096;
    }
  }

  lemma Quotient(x: nat, c: nat)
    requires ClusterSize(c)
    ensures x / c * c <= x < (x / c + 1) * c && x / c <= x
    ensures x < (MAX_FAT32 + 1) * c <==> x / c <= MAX_FAT32
  {
  }

  /** The number of sectors before the data area as the mount code adds it up. */
  lemma SystemSum(rsv: nat, area: nat, root: nat)
    requires rsv < 0x1_0000 && root <= 0x1000 && area < 0x2_0000_0000
    ensures var sysect := U32(rsv + U32(area) + root);
        && (rsv + area + root < 0x1_0000_0000 || rsv + area <= sysect ==> sysect == rsv + area + root)
  {
  }

  lemma TableRoom(t: FatType, n: nat, fsize: nat, ss: nat)
    requires SectorSize(ss) && n <= 0xFFF_FFF7
    ensures fsize < U32(U32(TableBytes(t, n)) + ss - 1) / ss <==> fsize * ss < TableBytes(t, n)
  {
    var bytes := TableBytes(t, n);
    assert bytes <= 4 * n;
    hide TableBytes;
    assert U32(bytes) == bytes && U32(bytes + ss - 1) == bytes + ss - 1;
    hide U32;
    if fsize * ss < bytes {
      Above(bytes, fsize, ss);
    } else {
      CeilFits(bytes, fsize, ss);
    }
  }

  lemma Above(bytes: nat, fsize: nat, ss: nat)
    requires SectorSize(ss) && fsize * ss < bytes
    ensures fsize < (bytes + ss - 1) / ss
  {
  }

  /** A boot sector whose areas add up mounts as exactly the volume its fields describe, with one table or two. */
  lemma MountsAsDescribed(b: Bpb, ss: nat, bsect: nat)
    requires SectorSize(ss) && Stored(b) && AddsUp(b, ss) && bsect + TotalSectors(b) < 0x1_0000_0000
    ensures Accept(b, ss, bsect) == if Mountable(b, ss) then Some(Described(b, ss, bsect)) else None
  {
    hide U32, AcceptType, TypeOf, TableBytes, SectorSize, ClusterSize, Stored, AddsUp, SystemSectors, Described;
    if Sensible(b, ss) {
      SensibleFits(b, ss);
      SectorsCounted(b, ss);
      if Clusters(b, ss) >= 1 {
        TypeAsDescribed(b, ss, bsect);
      }
    }
  }

  lemma SensibleFits(b: Bpb, ss: nat)
    requires SectorSize(ss) && Stored(b) && AddsUp(b, ss) && Sensible(b, ss)
    ensures SystemSectors(b, ss) <= TotalSectors(b) && Clusters(b, ss) <= MAX_FAT32
  {
    hide SystemSectors, SectorSize, ClusterSize, TotalSectors;
    Quotient(TotalSectors(b) - SystemSectors(b, ss), b.secPerClus);
  }

  lemma SectorsCounted(b: Bpb, ss: nat)
    requires SectorSize(ss) && Stored(b) && Sensible(b, ss) && SystemSectors(b, ss) <= TotalSectors(b)
    ensures U32(b.rsvdSecCnt + U32(TableSectors(b) * b.numFats) + b.rootEntCnt / (ss / 32)) == SystemSectors(b, ss)
  {
    hide U32, SectorSize, ClusterSize;
    var area, root := if b.numFats == 2 then 2 * TableSectors(b) else TableSectors(b), b.rootEntCnt * 32 / ss;
    RootDirectory(b.rootEntCnt, ss);
    SystemSum(b.rsvdSecCnt, area, root);
    assert TableSectors(b) * b.numFats == area;
  }

  lemma TypeAsDescribed(b: Bpb, ss: nat, bsect: nat)
    requires SectorSize(ss) && Stored(b) && AddsUp(b, ss) && bsect + TotalSectors(b) < 0x1_0000_0000
    requires Sensible(b, ss) && 1 <= Clusters(b, ss) <= MAX_FAT32
    ensures AcceptType(b, ss, bsect, TableSectors(b), SystemSectors(b, ss), Clusters(b, ss))
        == if Mountable(b, ss) then Some(Described(b, ss, bsect)) else None
  {
    hide TableBytes, SectorSize, ClusterSize, U32, Clusters;
    var n := Clusters(b, ss);
    TableRoom(TypeOf(n), n + 2, TableSectors(b), ss);
    SectorsCounted(b, ss);
    assert U32(n + 2) == n + 2;
    PlainSums(b, ss, bsect);
    hide SystemSectors, AddsUp, Stored;
  }

  lemma PlainSums(b: Bpb, ss: nat, bsect: nat)
    requires SectorSize(ss) && Stored(b) && Sensible(b, ss) && SystemSectors(b, ss) <= TotalSectors(b)
    requires bsect + TotalSectors(b) < 0x1_0000_0000
    ensures U32(bsect + b.rsvdSecCnt) == bsect + b.rsvdSecCnt
    ensures U32(bsect + SystemSectors(b, ss)) == bsect + SystemSectors(b, ss)
    ensures U32(bsect + b.rsvdSecCnt + U32(TableSectors(b) * b.numFats))
        == bsect + SystemSectors(b, ss) - b.rootEntCnt * 32 / ss
  {
    hide U32, SectorSize, ClusterSize;
    var root := b.rootEntCnt * 32 / ss;
    TableArea(b);
    Sums(bsect, b.rsvdSecCnt, TableSectors(b) * b.numFats, root);
  }

  lemma TableArea(b: Bpb)
    requires b.numFats == 1 || b.numFats == 2
    ensures TableSectors(b) * b.numFats == if b.numFats == 2 then 2 * TableSectors(b) else TableSectors(b)
  {
  }

  lemma Sums(bsect: nat, rsv: nat, area: nat, root: nat)
    requires bsect + rsv + area + root < 0x1_0000_0000
    ensures U32(bsect + rsv) == bsect + rsv && U32(bsect + (rsv + area + root)) == bsect + (rsv + area + root)
    ensures U32(bsect + rsv + U32(area)) == bsect + (rsv + area + root) - root
  {
  }

  lemma DescribedIsValid(b: Bpb, ss: nat, bsect: nat, nsect: nat)
    requires SectorSize(ss) && AddsUp(b, ss) && Mountable(b, ss)
    requires bsect + TotalSectors(b) <= nsect < FatVolume.MAX_DWORD
    ensures FreshVolume.GeometryOf(Described(b, ss, bsect), ss, nsect).Valid()
  {
    hide TableBytes, TotalSectors, TableSectors, TypeOf, SystemSectors;
    var rest := TotalSectors(b) - SystemSectors(b, ss);
    Quotient(rest, b.secPerClus);
    Room(Clusters(b, ss), b.secPerClus);
    var g := FreshVolume.GeometryOf(Described(b, ss, bsect), ss, nsect);
    assert g.database + (g.nFatent - 2) * g.csize <= nsect;
    assert g.volbase < g.fatbase && g.fatbase + g.fsize <= g.FatEnd() <= g.database by {
      SystemOrder(b, ss);
    }
    assert 3 <= g.nFatent <= FatVolume.MaxEntries(g.t) by {
      assert Clusters(b, ss) <= MAX_FAT32;
      EntriesFit(Clusters(b, ss));
    }
  }

  lemma EntriesFit(n: nat)
    requires n <= MAX_FAT32
    ensures n + 2 <= FatVolume.MaxEntries(TypeOf(n))
  {
  }

  lemma Room(n: nat, c: nat)
    requires n >= 1 && c >= 1
    ensures n * c >= 1
  {
  }

  lemma SystemOrder(b: Bpb, ss: nat)
    requires SectorSize(ss)
    ensures b.rsvdSecCnt + (if b.numFats == 2 then 2 * TableSectors(b) else TableSectors(b)) <= SystemSectors(b, ss)
  {
  }

  lemma ValidAddsUp(b: Bpb, ss: nat, bsect: nat, nsect: nat, v: Volume)
    requires SectorSize(ss) && Stored(b) && Accept(b, ss, bsect) == Some(v)
    requires bsect + TotalSectors(b) <= nsect < FatVolume.MAX_DWORD
    requires FreshVolume.GeometryOf(v, ss, nsect).Valid()
    ensures AddsUp(b, ss)
  {
    hide U32, SectorSize, ClusterSize, Stored, Accept, TableSectors, SystemSectors, Counted;
    AcceptedSums(b, ss, bsect, v);
    Behind(FreshVolume.GeometryOf(v, ss, nsect));
    hide FatVolume.Geometry.Valid;
    assert bsect < 0x1_0000_0000 && b.rsvdSecCnt < 0x1_0000 && Counted(b, ss) < 0x1_0000_0000 by { SmallSums(b, ss); }
    Unwrapped(bsect, b.rsvdSecCnt);
    Unwrapped(bsect, Counted(b, ss));
    CountedIsPlain(b, ss);
    FewClusters(TotalSectors(b) - Counted(b, ss), b.secPerClus, v.t);
  }

  lemma SmallSums(b: Bpb, ss: nat)
    requires SectorSize(ss) && Stored(b)
    ensures b.rsvdSecCnt < 0x1_0000 && Counted(b, ss) < 0x1_0000_0000
  {
  }

  lemma FewClusters(rest: nat, c: nat, t: FatType)
    requires ClusterSize(c) && rest < 0x1_0000_0000 && 3 <= U32(rest / c + 2) <= FatVolume.MaxEntries(t)
    ensures rest < (MAX_FAT32 + 1) * c
  {
    hide ClusterSize, U32;
    Quotient(rest, c);
    Entries(rest / c, t);
  }

  lemma CountedIsPlain(b: Bpb, ss: nat)
    requires SectorSize(ss) && Stored(b) && Sensible(b, ss)
    requires b.rsvdSecCnt + (if b.numFats == 2 then 2 * TableSectors(b) else TableSectors(b)) <= Counted(b, ss)
    ensures Counted(b, ss) == SystemSectors(b, ss)
  {
    hide U32, SectorSize, ClusterSize;
    RootDirectory(b.rootEntCnt, ss);
    TableArea(b);
    SystemSum(b.rsvdSecCnt, TableSectors(b) * b.numFats, b.rootEntCnt * 32 / ss);
  }

  lemma Behind(g: FatVolume.Geometry)
    requires g.Valid()
    ensures g.volbase < g.fatbase && g.fatbase + (if g.nFats == 2 then 2 * g.fsize else g.fsize) <= g.database
    ensures 3 <= g.nFatent <= FatVolume.MaxEntries(g.t)
  {
  }

  /** Sectors before the data area as 32-bit arithmetic has them. */
  function Counted(b: Bpb, ss: nat): nat
    requires SectorSize(ss)
  {
    U32(b.rsvdSecCnt + U32(TableSectors(b) * b.numFats) + b.rootEntCnt / (ss / 32))
  }

  lemma AcceptedSums(b: Bpb, ss: nat, bsect: nat, v: Volume)
    requires SectorSize(ss) && Accept(b, ss, bsect) == Some(v)
    ensures Sensible(b, ss) && Counted(b, ss) <= TotalSectors(b)
    ensures v.volbase == bsect && v.fatbase == U32(bsect + b.rsvdSecCnt) && v.database == U32(bsect + Counted(b, ss))
    ensures v.nFats == b.numFats && v.fsize == TableSectors(b)
    ensures v.nFatent == U32((TotalSectors(b) - Counted(b, ss)) / b.secPerClus + 2)
  {
    hide TableBytes, U32, SectorSize, ClusterSize, TypeOf;
  }

  /** A sum that wrapped lies below its first term. */
  lemma Unwrapped(a: nat, x: nat)
    requires a < 0x1_0000_0000 && x < 0x1_0000_0000
    ensures a + x < 0x1_0000_0000 || U32(a + x) < a
    ensures U32(a + x) == a + x || U32(a + x) < a
  {
  }

  lemma Entries(n: nat, t: FatType)
    requires n < 0x1_0000_0000 && 3 <= U32(n + 2) <= FatVolume.MaxEntries(t)
    ensures n <= MAX_FAT32
  {
  }

  /**
   The mount code takes the fields of a boot sector for a volume the file system can work on exactly if the areas they
   describe add up, without wrapping and with clusters FAT32 can number: its tables then lie before its data, hold an
   entry for every cluster, and its last cluster ends on the drive.
   */
  lemma AcceptedIsValidIff(b: Bpb, ss: nat, bsect: nat, nsect: nat, v: Volume)
    requires SectorSize(ss) && Stored(b) && Accept(b, ss, bsect) == Some(v)
    requires bsect + TotalSectors(b) <= nsect < FatVolume.MAX_DWORD
    ensures FreshVolume.GeometryOf(v, ss, nsect).Valid() <==> AddsUp(b, ss)
  {
    hide Accept, AddsUp, Mountable, SectorSize, Stored, TotalSectors, FatVolume.Geometry.Valid;
    if AddsUp(b, ss) {
      MountsAsDescribed(b, ss, bsect);
      DescribedIsValid(b, ss, bsect, nsect);
    } else if FreshVolume.GeometryOf(v, ss, nsect).Valid() {
      ValidAddsUp(b, ss, bsect, nsect, v);
    }
  }

  /** The other volumes exist: two tables of 2^31 sectors wrap to none, and this volume is mounted with its data right
      behind the reserved sector. */
  lemma WrappedIsMounted()
    ensures var b := Bpb(512, 8, 1, 2, 0, 0, 0, 600_000, 0x8000_0000, 0, 2, 1);
        && Stored(b) && !AddsUp(b, 512)
        && Accept(b, 512, 0) == Some(Volume(Fat32, 8, 2, 0x8000_0000, 75_001, 0, 0, 1, 1, 2, true))
  {
    assert U32(0x8000_0000 * 2) == 0;
  }

  /** The signature of a boot record at offset 510. */
  ghost predicate IsSigned(b: BootSector.sector) { b[510] == 0x55 && b[511] == 0xAA }

  /** A signed sector that begins with a jump and names a FAT file system where one of its sub-types has the name. */
  ghost predicate IsFatBoot(b: BootSector.sector) {
    && IsSigned(b) && (b[0] == 0xE9 || (b[0] == 0xEB && b[2] == 0x90))
    && (b[54..57] == BootSector.Ascii("FAT") || b[82..86] == BootSector.Ascii("FAT3"))
  }

  ghost predicate IsExFatBoot(b: BootSector.sector) {
    IsSigned(b) && b[0] == 0xEB && b[1] == 0x76 && b[2] == 0x90 && b[3..11] == BootSector.Ascii("EXFAT   ")
  }

  lemma Recognised(b: BootSector.sector)
    ensures F.CheckSector(b) == if !IsSigned(b) then F.NoBoot else if IsFatBoot(b) then F.FatVbr
        else if IsExFatBoot(b) then F.ExFatVbr else F.OtherBoot
  {
    Word(b, 510, 0x55, 0xAA);
    Letters(b, 54);
    Letters(b, 82);
    assert BootSector.Ascii("FAT3") == [70, 65, 84, 51] && BootSector.Ascii("FAT") == [70, 65, 84];
    assert BootSector.Ascii("EXFAT   ") == [69, 88, 70, 65, 84, 32, 32, 32];
    ExFatName(b);
    hide Bytes.LdWord, Bytes.LdDword, BootSector.Ascii;
  }

  lemma ExFatName(b: BootSector.sector)
    ensures b[..11] == F.EXFAT_JUMP
        <==> b[0] == 0xEB && b[1] == 0x76 && b[2] == 0x90 && b[3..11] == [69, 88, 70, 65, 84, 32, 32, 32]
  {
    var name: seq<Bytes.byte> := [69, 88, 70, 65, 84, 32, 32, 32];
    assert b[..11] == [b[0], b[1], b[2]] + b[3..11] && F.EXFAT_JUMP == [0xEB, 0x76, 0x90] + name;
    assert F.EXFAT_JUMP[3..] == name && F.EXFAT_JUMP[0] == 0xEB && F.EXFAT_JUMP[1] == 0x76 && F.EXFAT_JUMP[2] == 0x90;
    assert b[..11][3..] == b[3..11];
  }

  lemma Word(b: BootSector.sector, o: nat, x: Bytes.byte, y: Bytes.byte)
    requires o + 1 < |b|
    ensures Bytes.LdWord(b, o) == x as int + 0x100 * y as int <==> b[o] == x && b[o + 1] == y
  {
  }

  lemma Letters(b: BootSector.sector, o: nat)
    requires o + 4 <= 512
    ensures Bytes.LdDword(b, o) % 0x100_0000 == 0x54_4146 <==> b[o..o + 3] == [70, 65, 84]
    ensures Bytes.LdDword(b, o) == 0x3354_4146 <==> b[o..o + 4] == [70, 65, 84, 51]
  {
    var low := b[o] as int + 0x100 * b[o + 1] as int + 0x1_0000 * b[o + 2] as int;
    assert Bytes.LdDword(b, o) % 0x100_0000 == low;
    assert b[o..o + 3] == [b[o], b[o + 1], b[o + 2]] && b[o..o + 4] == [b[o], b[o + 1], b[o + 2], b[o + 3]];
  }

  /** Entry `i` of the partition table at offset 446 is used, for a sector that holds a FAT or exFAT volume. */
  ghost predicate Holds(d: FatVolume.Disk, ss: nat, i: nat)
    requires SectorSize(ss) && F.IsDisk(d, ss) && |d| > 0 && i < 4
  {
    && d[0][450 + 16 * i] != 0 && Bytes.LdDword(d[0], 454 + 16 * i) != 0
    && F.CheckFs(d, ss, Bytes.LdDword(d[0], 454 + 16 * i)) in {F.FatVbr, F.ExFatVbr}
  }

  ghost predicate FirstHolder(d: FatVolume.Disk, ss: nat, i: nat)
    requires SectorSize(ss) && F.IsDisk(d, ss) && |d| > 0
  {
    i < 4 && Holds(d, ss, i) && forall j: nat :: j < i ==> !Holds(d, ss, j)
  }

  /** The boot sector a drive is mounted from: its first sector, or else that of the first partition with a volume. */
  ghost predicate BootsFrom(d: FatVolume.Disk, ss: nat, s: nat)
    requires SectorSize(ss) && F.IsDisk(d, ss)
  {
    && s < |d| && F.CheckFs(d, ss, s) == F.FatVbr
    && if s == 0 then true
       else
         && F.CheckFs(d, ss, 0) == F.OtherBoot
         && exists i: nat :: FirstHolder(d, ss, i) && Bytes.LdDword(d[0], 454 + 16 * i) == s
  }

  lemma HoldsIff(d: FatVolume.Disk, ss: nat, i: nat)
    requires SectorSize(ss) && F.IsDisk(d, ss) && |d| > 0 && i < 4
    ensures var b := F.PartitionStart(d[0], i);
        && (Holds(d, ss, i) <==> b != 0 && F.CheckFs(d, ss, b) in {F.FatVbr, F.ExFatVbr})
        && (Holds(d, ss, i) ==> b == Bytes.LdDword(d[0], 454 + 16 * i))
  {
    hide F.CheckFs;
  }

  lemma {:induction false} FindsFirst(d: FatVolume.Disk, ss: nat, i: nat, k: nat)
    requires SectorSize(ss) && F.IsDisk(d, ss) && |d| > 0 && i <= k < 4
    requires Holds(d, ss, k) && forall j: nat :: i <= j < k ==> !Holds(d, ss, j)
    ensures F.FindPartition(d, ss, i).0 == Bytes.LdDword(d[0], 454 + 16 * k)
    ensures F.FindPartition(d, ss, i).1 == F.CheckFs(d, ss, Bytes.LdDword(d[0], 454 + 16 * k))
    decreases k - i
  {
    hide F.CheckFs, Holds, F.PartitionStart;
    HoldsIff(d, ss, i);
    if i < k {
      FindsFirst(d, ss, i + 1, k);
    }
  }

  lemma {:induction false} FoundHolds(d: FatVolume.Disk, ss: nat, i: nat) returns (k: nat)
    requires SectorSize(ss) && F.IsDisk(d, ss) && |d| > 0 && i < 4
    requires F.FindPartition(d, ss, i).1 == F.FatVbr
    ensures i <= k < 4 && Holds(d, ss, k) && forall j: nat :: i <= j < k ==> !Holds(d, ss, j)
    ensures F.FindPartition(d, ss, i).0 == Bytes.LdDword(d[0], 454 + 16 * k)
    decreases 4 - i
  {
    hide F.CheckFs, Holds, F.PartitionStart;
    HoldsIff(d, ss, i);
    k := i;
    if !Holds(d, ss, i) {
      k := FoundHolds(d, ss, i + 1);
    }
  }

  /** Which boot sector a drive is mounted from, whatever its partition table holds. */
  lemma MountedFromIff(d: FatVolume.Disk, ss: nat, v: Volume)
    requires SectorSize(ss) && F.IsDisk(d, ss)
    ensures F.MountOf(d, ss) == F.Mounted(v) <==>
        BootsFrom(d, ss, v.volbase) && Accept(BootSector.Read(d[v.volbase]), ss, v.volbase) == Some(v)
  {
    hide F.CheckSector, Holds, F.FindPartition, BootSector.Read, Accept, FirstHolder;
    if F.MountOf(d, ss) == F.Mounted(v) {
      var s := 0;
      if F.CheckFs(d, ss, 0) == F.OtherBoot {
        s := FoundHolder(d, ss);
      }
      AcceptedSums(BootSector.Read(d[s]), ss, s, v);
    } else if BootsFrom(d, ss, v.volbase) && v.volbase != 0 {
      FoundFirst(d, ss, v.volbase);
    }
  }

  lemma FoundHolder(d: FatVolume.Disk, ss: nat) returns (s: nat)
    requires SectorSize(ss) && F.IsDisk(d, ss) && F.CheckFs(d, ss, 0) == F.OtherBoot
    requires F.FindPartition(d, ss, 0).1 == F.FatVbr
    ensures s == F.FindPartition(d, ss, 0).0 && BootsFrom(d, ss, s)
  {
    hide F.CheckSector, Holds, F.FindPartition;
    var k := FoundHolds(d, ss, 0);
    s := F.FindPartition(d, ss, 0).0;
    FindsFirst(d, ss, 0, k);
    assert FirstHolder(d, ss, k);
  }

  lemma FoundFirst(d: FatVolume.Disk, ss: nat, s: nat)
    requires SectorSize(ss) && F.IsDisk(d, ss) && BootsFrom(d, ss, s) && s != 0
    ensures F.FindPartition(d, ss, 0) == (s, F.FatVbr)
  {
    hide F.CheckFs, Holds, F.FindPartition;
    var k: nat :| FirstHolder(d, ss, k) && Bytes.LdDword(d[0], 454 + 16 * k) == s;
    FindsFirst(d, ss, 0, k);
  }

  lemma ReadStored(s: BootSector.sector)
    ensures Stored(BootSector.Read(s))
  {
  }

  /**
   Mounting a drive: where the areas of its boot sector add up, the volume mounted is the one described there, or none;
   and whatever is mounted is a volume the file system can work on exactly if they add up.
   */
  lemma MountedIsValidIff(d: FatVolume.Disk, ss: nat, s: nat)
    requires SectorSize(ss) && F.IsDisk(d, ss) && BootsFrom(d, ss, s)
    requires s + TotalSectors(BootSector.Read(d[s])) <= |d| < FatVolume.MAX_DWORD
    ensures var b, m := BootSector.Read(d[s]), F.MountOf(d, ss);
        && (m.Mounted? ==> (FreshVolume.GeometryOf(m.v, ss, |d|).Valid() <==> AddsUp(b, ss)))
        && (AddsUp(b, ss) ==> m == if Mountable(b, ss) then F.Mounted(Described(b, ss, s)) else F.NoFileSystem)
  {
    hide F.CheckSector, Holds, F.FindPartition, BootSector.Read, Accept, FirstHolder, AddsUp, Mountable, Described,
        Stored, TotalSectors, FatVolume.Geometry.Valid;
    var b, m := BootSector.Read(d[s]), F.MountOf(d, ss);
    ReadStored(d[s]);
    if s != 0 {
      FoundFirst(d, ss, s);
    }
    if m.Mounted? {
      AcceptedIsValidIff(b, ss, s, |d|, m.v);
    }
    if AddsUp(b, ss) {
      MountsAsDescribed(b, ss, s);
    }
  }
}
