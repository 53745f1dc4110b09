/** Formatting a drive (f_mkfs in ff.c) and mounting it (check_fs, find_volume). */
module Format {
  import opened Options
  import opened Arith
  import opened Bytes
  import opened FatEntries
  import opened FormatLayout
  import opened BootSector
  import FsInfo
  import V = FatVolume

  const MBR_TABLE: nat := 446
  const SZ_PTE: nat := 16

  datatype Check = FatVbr | ExFatVbr | OtherBoot | NoBoot | DiskErr
  datatype Mount = Mounted(v: Volume) | NoFileSystem | DiskError | ExFatVolume

  const EXFAT_JUMP: seq<byte> := [0xEB, 0x76, 0x90, 0x45, 0x58, 0x46, 0x41, 0x54, 0x20, 0x20, 0x20]

  ghost predicate IsDisk(d: V.Disk, ss: nat) {
    forall s :: 0 <= s < |d| ==> |d[s]| == ss
  }

  /** check_fs. */
  function CheckFs(d: V.Disk, ss: nat, s: nat): Check
    requires SectorSize(ss) && IsDisk(d, ss)
  {
    if s >= |d| then DiskErr else CheckSector(d[s])
  }

  function CheckSector(b: sector): Check {
    if LdWord(b, 510) != 0xAA55 then NoBoot
    else if IsFatVbr(b) then FatVbr
    else if b[..11] == EXFAT_JUMP then ExFatVbr
    else OtherBoot
  }

  /** Start of partition `i`, or 0 if its entry is unused. */
  function PartitionStart(mbr: sector, i: nat): nat
    requires i < 4
  {
    if mbr[MBR_TABLE + i * SZ_PTE + 4] != 0 then LdDword(mbr, MBR_TABLE + i * SZ_PTE + 8) else 0
  }

  /** The first partition from `i` on that holds a FAT or exFAT volume. */
  function FindPartition(d: V.Disk, ss: nat, i: nat): (r: (nat, Check))
    requires SectorSize(ss) && IsDisk(d, ss) && |d| > 0 && i < 4
    ensures r.1 == FatVbr ==> r.0 < |d|
    decreases 4 - i
  {
    var b := PartitionStart(d[0], i);
    var c := if b != 0 then CheckFs(d, ss, b) else NoBoot;
    if c == FatVbr || c == ExFatVbr || i == 3 then (b, c) else FindPartition(d, ss, i + 1)
  }

  /** What find_volume makes of a drive. */
  function MountOf(d: V.Disk, ss: nat): Mount
    requires SectorSize(ss) && IsDisk(d, ss)
  {
    var first := CheckFs(d, ss, 0);
    var (b, c) := if first == OtherBoot then FindPartition(d, ss, 0) else (0, first);
    match c
    case DiskErr => DiskError
    case NoBoot | OtherBoot => NoFileSystem
    case ExFatVbr => ExFatVolume
    case FatVbr =>
      match Accept(Read(d[b]), ss, b)
      case Some(v) => Mounted(v)
      case None => NoFileSystem
  }

  /** Kind, and begin and end by head, sector and cylinder, of a partition that ends in cylinder `n`. */
  function EntryHead(sys: byte, n: nat): seq<byte> {
    [0, 1, 1, 0, sys, 254, (n / 4 / 64 * 64 + 63) % 256, n % 256]
  }

  /** The partition table of a drive with a single partition. */
  function Mbr(ss: nat, base: nat, vol: nat, sys: byte): (r: sector)
    requires ss >= 512 && base < 0x1_0000_0000 && vol < 0x1_0000_0000
    ensures |r| == ss && r[0] == 0 && LdWord(r, 510) == 0xAA55
  {
    var b := PutBytes(StWord(Zeros(ss), 510, 0xAA55), MBR_TABLE, EntryHead(sys, (base + vol) / (63 * 255)));
    StDword(StDword(b, MBR_TABLE + 8, base), MBR_TABLE + 12, vol)
  }

  /** The first entry of a partition table: kind of partition, first sector and size, and where it begins and ends by
      head, sector and cylinder. */
  ghost predicate IsEntry(r: sector, base: nat, vol: nat, sys: byte) {
    && r[446] == 0 && r[447] == 1 && r[448] == 1 && r[449] == 0 && r[450] == sys
    && r[451] == 254 && r[452] % 64 == 63 && r[453] as int + 256 * (r[452] as int / 64) == (base + vol) / 16065 % 1024
    && LdDword(r, 454) == base && LdDword(r, 458) == vol
  }

  lemma MbrEntry(ss: nat, base: nat, vol: nat, sys: byte)
    requires ss >= 512 && base < 0x1_0000_0000 && vol < 0x1_0000_0000
    ensures IsEntry(Mbr(ss, base, vol, sys), base, vol, sys)
  {
    hide StWord;
    BytesOfDword(vol);
    var n := (base + vol) / (63 * 255);
    EndCylinder(n);
    hide LdDword, StDword;
    var b := PutBytes(StWord(Zeros(ss), 510, 0xAA55), 446, EntryHead(sys, n));
    var c := StDword(b, 454, base);
    EntryKept(b, 454, base);
    EntryKept(c, 458, vol);
  }

  lemma EntryKept(b: sector, o: nat, v: nat)
    requires 454 <= o && o + 3 < |b| && v < 0x1_0000_0000
    ensures var r := StDword(b, o, v); r[446..454] == b[446..454] && LdDword(r, o) == v
    ensures forall i :: 446 <= i < 454 ==> StDword(b, o, v)[i] == b[i]
  {
    BytesOfDword(v);
  }

  /** Bits 8 and 9 of the cylinder share a byte with the sector. */
  lemma EndCylinder(n: nat)
    ensures var s := (n / 4 / 64 * 64 + 63) % 256; s % 64 == 63 && n % 256 + 256 * (s / 64) == n % 1024
  {
    var t, u, v := n / 1024, n / 256 % 4, n % 256;
    assert n == 1024 * t + 256 * u + v;
    assert n / 4 / 64 == 4 * t + u;
    DivUnique((4 * t + u) * 64 + 63, 256, t, 64 * u + 63);
    DivUnique(64 * u + 63, 64, u, 63);
    DivUnique(n, 1024, t, 256 * u + v);
  }

  lemma MbrPointsAt(ss: nat, base: nat, vol: nat, sys: byte)
    requires ss >= 512 && base < 0x1_0000_0000 && vol < 0x1_0000_0000 && sys != 0
    ensures CheckSector(Mbr(ss, base, vol, sys)) == OtherBoot
    ensures PartitionStart(Mbr(ss, base, vol, sys), 0) == base
  {
    MbrEntry(ss, base, vol, sys);
    hide Mbr, LdWord, LdDword;
    var r := Mbr(ss, base, vol, sys);
    assert r[..11][0] == 0;
  }

  function SystemId(t: FatType, vol: nat): (r: byte)
    ensures r == 0x0C <==> t == Fat32
    ensures r == 0x06 <==> t != Fat32 && vol >= 0x1_0000
    ensures r == 0x04 <==> t == Fat16 && vol < 0x1_0000
    ensures r == 0x01 || r == 0x04 || r == 0x06 || r == 0x0C
  {
    if t == Fat32 then 0x0C else if vol >= 0x1_0000 then 0x06 else if t == Fat16 then 0x04 else 0x01
  }

  /** The first sector of a fresh table: the reserved entries and, for FAT32, the root directory's. */
  function FirstFatSector(t: FatType, ss: nat): (r: sector)
    requires ss >= 512
    ensures |r| == ss
  {
    match t
    case Fat32 => StDword(StDword(StDword(Zeros(ss), 0, 0xFFFF_FFF8), 4, 0xFFFF_FFFF), 8, 0x0FFF_FFFF)
    case Fat16 => StDword(Zeros(ss), 0, 0xFFFF_FFF8)
    case Fat12 => StDword(Zeros(ss), 0, 0xFF_FFF8)
  }

  /** The sectors f_mkfs clears: the table, and the root directory or its first cluster. */
  function ClearedEnd(p: Params, l: Layout): nat {
    p.base + l.rsv + l.fat + (if l.t == Fat32 then l.pau else l.dir)
  }

  function Vbr(p: Params, l: Layout, volId: nat): (r: sector)
    requires p.Valid() && Fits(p, l)
    ensures |r| == p.ss
  {
    LayoutIsStorable(p, l);
    Build(p.ss, FieldsOf(p, l), p.base, l.t == Fat32, volId)
  }

  lemma LayoutIsStorable(p: Params, l: Layout)
    requires p.Valid() && Fits(p, l)
    ensures Storable(FieldsOf(p, l))
  {
    LinearFacts(p, l);
  }

  /** The drive after formatting, sector by sector. */
  ghost predicate Formatted(was: V.Disk, d: V.Disk, p: Params, l: Layout, sfd: bool, volId: nat)
    requires p.Valid() && Fits(p, l)
  {
    && |d| == |was| == p.base + p.vol && IsDisk(d, p.ss)
    && p.base == (if sfd then 0 else 63)
    && d[p.base] == Vbr(p, l, volId)
    && (l.t == Fat32 ==> p.base + 7 < |d| && l.clusters > 0 && d[p.base + 1] == FsInfo.Build(p.ss, l.clusters - 1, 2))
    && (l.t == Fat32 ==> d[p.base + 6] == d[p.base] && d[p.base + 7] == d[p.base + 1])
    && (forall s :: 0 <= s < |d| && (ClearedEnd(p, l) <= s || 0 < s < p.base) ==> d[s] == was[s])
    && (!sfd ==> d[0] == Mbr(p.ss, p.base, p.vol, SystemId(l.t, p.vol)))
    && p.base + l.rsv < |d| && d[p.base + l.rsv] == FirstFatSector(l.t, p.ss)
    && ClearedEnd(p, l) <= |d| && forall s :: p.base + l.rsv < s < ClearedEnd(p, l) ==> d[s] == Zeros(p.ss)
  }

  /** A formatted drive mounts as the volume that was laid out. */
  lemma FormattedMounts(was: V.Disk, d: V.Disk, p: Params, l: Layout, sfd: bool, volId: nat)
    requires p.Valid() && Fits(p, l) && Formatted(was, d, p, l, sfd, volId)
    ensures MountOf(d, p.ss) == if l.clusters >= 1 then Mounted(VolumeOf(p, l)) else NoFileSystem
  {
    hide Build, IsFatVbr, Accept, Fits, SectorSize, VolumeOf, Mbr, AlikeSmall, BootSector.Read;
    VbrMounts(p, l, volId);
    assert CheckFs(d, p.ss, p.base) == FatVbr;
    if !sfd {
      MbrPointsAt(p.ss, p.base, p.vol, SystemId(l.t, p.vol));
      assert FindPartition(d, p.ss, 0) == (63, FatVbr);
    }
  }

  lemma VbrMounts(p: Params, l: Layout, volId: nat)
    requires p.Valid() && Fits(p, l)
    ensures CheckSector(Vbr(p, l, volId)) == FatVbr
    ensures Accept(Read(Vbr(p, l, volId)), p.ss, p.base) == if l.clusters >= 1 then Some(VolumeOf(p, l)) else None
  {
    hide Build, IsFatVbr, Accept, VolumeOf, SectorSize, ClusterSize, BootSector.Read, AlikeSmall, Storable, Fits,
        Params.Valid;
    LayoutIsStorable(p, l);
    var f := FieldsOf(p, l);
    SmallFieldsSet(p, l);
    BuiltReads(p.ss, f, p.base, l.t == Fat32, volId);
    MountsIff(p, l);
    hide FieldsOf;
    if l.t != Fat32 { AcceptedAlike(f, Read(Vbr(p, l, volId)), p.ss, p.base); }
  }

  lemma SmallFieldsSet(p: Params, l: Layout)
    requires p.Valid() && Fits(p, l)
    ensures SectorSize(p.ss) && if l.t == Fat32 then FieldsOf(p, l).fatSz16 == 0 else
          && FieldsOf(p, l).fatSz16 != 0
          && FieldsOf(p, l).rootEntCnt != 0
  {
    LinearFacts(p, l);
  }

  predicate PowerOfTwo(n: nat) {
    n == 1 || (n > 1 && n % 2 == 0 && PowerOfTwo(n / 2))
  }

  lemma {:induction false} PowersDivide(a: nat, b: nat)
    requires PowerOfTwo(a) && PowerOfTwo(b) && a >= b
    ensures PowerOfTwo(a / b)
  {
    if b > 1 {
      PowersDivide(a / 2, b / 2);
      ModSplit(a, 2, b / 2);
    }
  }

  lemma {:induction false} SmallPower(n: nat)
    requires PowerOfTwo(n) && n <= 128
    ensures ClusterSize(n)
  {
    if n > 1 { SmallPower(n / 2); }
  }

  /** An allocation unit in bytes that passes the checks is a cluster size in sectors, if at most 128. */
  lemma UnitIsClusterSize(au: nat, ss: nat)
    requires SectorSize(ss) && PowerOfTwo(au) && au >= ss && au / ss <= 128
    ensures ClusterSize(au / ss)
  {
    assert PowerOfTwo(512) && PowerOfTwo(1024) && PowerOfTwo(2048) && PowerOfTwo(4096);
    PowersDivide(au, ss);
    SmallPower(au / ss);
  }

  lemma AreasFit(p: Params, l: Layout)
    requires p.Valid() && Fits(p, l)
    ensures 1 <= l.rsv && 1 <= l.fat && p.base + l.rsv + l.fat + l.dir <= p.base + p.vol
        && ClearedEnd(p, l) <= p.base + p.vol
    ensures if l.t == Fat32 then l.rsv >= 32 && l.pau > 0 && l.clusters > 0 else l.dir > 0
  {
    RootSectors(p.ss);
    if l.t == Fat32 { ClusterInside(p.vol - l.rsv - l.fat - l.dir, l.pau); }
  }

  lemma ClusterInside(rest: nat, pau: nat)
    requires ClusterSize(pau) && rest / pau > 0
    ensures pau <= rest
  {
  }

  /** `n` sectors from `sect` on hold `first` and then zeros; no other sector changed. */
  ghost predicate Cleared(was: V.Disk, d: V.Disk, first: seq<byte>, sect: nat, n: nat, ss: nat) {
    && |d| == |was|
    && forall s :: 0 <= s < |d| ==>
         d[s] == if s == sect && n > 0 then first else if sect < s < sect + n then Zeros(ss) else was[s]
  }

  lemma WrittenIsFormatted(was: V.Disk, d1: V.Disk, d2: V.Disk, d3: V.Disk, d: V.Disk, p: Params, l: Layout,
      sfd: bool, volId: nat)
    requires p.Valid() && Fits(p, l) && p.base == (if sfd then 0 else 63)
    requires |was| == |d1| == |d| == p.base + p.vol && IsDisk(d, p.ss)
    requires d1[p.base] == Vbr(p, l, volId)
    requires l.t == Fat32 ==>
          && p.base + 7 < |d1| && l.clusters > 0
          && d1[p.base + 1] == FsInfo.Build(p.ss, l.clusters - 1, 2)
          && d1[p.base + 6] == d1[p.base] && d1[p.base + 7] == d1[p.base + 1]
    requires forall s :: 0 <= s < |d1| && (s < p.base || p.base + 8 <= s || (l.t != Fat32 && p.base < s)) ==>
          d1[s] == was[s]
    requires Cleared(d1, d2, FirstFatSector(l.t, p.ss), p.base + l.rsv, l.fat, p.ss)
    requires Cleared(d2, d3, Zeros(p.ss), p.base + l.rsv + l.fat, if l.t == Fat32 then l.pau else l.dir, p.ss)
    requires d == if sfd then d3 else d3[0 := Mbr(p.ss, p.base, p.vol, SystemId(l.t, p.vol))]
    ensures Formatted(was, d, p, l, sfd, volId)
  {
    hide SectorSize, ClusterSize, Vbr, Mbr, FsInfo.Build, FirstFatSector, Fits;
    AreasFit(p, l);
  }

  /** What the caller asks for: the allocation unit in bytes and the option bits. */
  datatype Request = Request(au: nat, fat: bool, fat32: bool, exfat: bool, sfd: bool)

  datatype Result = Done(p: Params, l: Layout) | Aborted | InvalidParameter | ExFat

  /** Erase block sizes f_mkfs does not believe count as 1. */
  function BlockOf(blk0: nat): (blk: nat)
    ensures 1 <= blk <= 0x8000
  {
    if blk0 == 0 || blk0 > 0x8000 || !PowerOfTwo(blk0) then 1 else blk0
  }

  predicate BadUnit(au: nat, ss: nat) { au != 0 && (au < ss || au > 0x100_0000 || !PowerOfTwo(au)) }

  function StartType(req: Request): FatType { if req.fat32 && !req.fat then Fat32 else Fat16 }

  lemma UnitIsUsable(au: nat, ss: nat)
    requires SectorSize(ss) && !BadUnit(au, ss) && au / ss <= 128
    ensures au / ss == 0 <==> au == 0
    ensures au != 0 ==> ClusterSize(au / ss)
  {
    if au != 0 { UnitIsClusterSize(au, ss); }
  }

  /** What f_mkfs decides for a drive of `n` sectors, before it writes anything. */
  function Decide(req: Request, blk0: nat, szBuf: nat, ss: nat, n: nat): Result
    requires SectorSize(ss) && n < 0x1_0000_0000
  {
    var base := if req.sfd then 0 else 63;
    var au := req.au / ss;
    if BadUnit(req.au, ss) then InvalidParameter
    else if szBuf == 0 || n < base + 128 then Aborted
    else if req.exfat && ((!req.fat && !req.fat32) || n - base >= 0x400_0000 || au > 128) then ExFat
    else if au > 128 || (!req.fat && !req.fat32) then InvalidParameter
    else
      var p := Params(n - base, base, ss, BlockOf(blk0), req.fat32);
      UnitIsUsable(req.au, ss);
      match Settle(p, StartType(req), au)
      case Chosen(l) => Done(p, l)
      case _ => Aborted
  }

  /** A cluster size is asked for in bytes: 0, or a power of two of at least a sector and at most 16 MiB. */
  ghost predicate GoodUnit(au: nat, ss: nat) {
    au == 0 || (ss <= au <= 0x100_0000 && exists k: nat :: au == Power(k))
  }

  lemma {:induction false} PowerOfTwoIff(n: nat)
    ensures PowerOfTwo(n) <==> exists k: nat :: n == Power(k)
  {
    if n == 1 {
      assert n == Power(0);
    } else if n % 2 == 0 && n > 1 {
      PowerOfTwoIff(n / 2);
      if PowerOfTwo(n / 2) {
        var k: nat :| n / 2 == Power(k);
        assert n == Power(k + 1);
      }
      forall k: nat | n == Power(k) ensures PowerOfTwo(n) {
        assert k > 0 && n / 2 == Power(k - 1);
      }
    } else {
      forall k: nat ensures n != Power(k) {
        if k > 0 {
          assert Power(k) == 2 * Power(k - 1);
        }
      }
    }
  }

  /** Which requests are refused, left to exFAT, or tried, and with what parameters. */
  lemma DecidedBy(req: Request, blk0: nat, szBuf: nat, ss: nat, n: nat)
    requires SectorSize(ss) && n < 0x1_0000_0000
    ensures var r, base := Decide(req, blk0, szBuf, ss, n), if req.sfd then 0 else 63;
        var roomy := szBuf > 0 && base + 128 <= n;
        var exfat := req.exfat && ((!req.fat && !req.fat32) || 0x400_0000 <= n - base || 129 * ss <= req.au);
        && (r == InvalidParameter <==>
              !GoodUnit(req.au, ss) || (roomy && !exfat && (129 * ss <= req.au || (!req.fat && !req.fat32))))
        && (r == ExFat <==> GoodUnit(req.au, ss) && roomy && exfat)
        && (GoodUnit(req.au, ss) && !roomy ==> r == Aborted)
        && (r.Done? ==> r.p == Params(n - base, base, ss, r.p.blk, req.fat32))
        && (r.Done? ==> r.p.blk == if blk0 <= 0x8000 && (exists k: nat :: blk0 == Power(k)) then blk0 else 1)
  {
    hide Settle, PowerOfTwo, Power, SectorSize, ClusterSize;
    UnitIsGood(req.au, ss);
    PowerOfTwoIff(blk0);
    SectorsOf(req.au, ss);
    assert BlockOf(blk0) == if blk0 <= 0x8000 && (exists k: nat :: blk0 == Power(k)) then blk0 else 1;
    hide BadUnit, GoodUnit, BlockOf;
  }

  /** What is tried first is FAT16, if it is among what is asked for. */
  lemma TriedFirst(req: Request, blk0: nat, szBuf: nat, ss: nat, n: nat)
    requires SectorSize(ss) && n < 0x1_0000_0000 && Decide(req, blk0, szBuf, ss, n).Done?
    ensures var r, au := Decide(req, blk0, szBuf, ss, n), req.au / ss;
        && r.p.Valid() && (au == 0 || ClusterSize(au))
        && Settle(r.p, if req.fat then Fat16 else Fat32, au) == Chosen(r.l)
  {
    hide Settle, PowerOfTwo, ClusterSize;
    UnitIsUsable(req.au, ss);
  }

  lemma UnitIsGood(au: nat, ss: nat)
    ensures BadUnit(au, ss) <==> !GoodUnit(au, ss)
  {
    PowerOfTwoIff(au);
    if GoodUnit(au, ss) && au != 0 {
      var k: nat :| au == Power(k);
      assert exists k: nat :: au == Power(k);
      assert PowerOfTwo(au);
    }
  }

  lemma SectorsOf(au: nat, ss: nat)
    requires SectorSize(ss)
    ensures au / ss > 128 <==> 129 * ss <= au
  {
  }

  class Drive {
    const ss: nat
    var sectors: V.Disk

    ghost predicate Valid()
      reads this
      ensures Valid() ==> SectorSize(ss) && IsDisk(sectors, ss) && |sectors| < 0x1_0000_0000
    {
      SectorSize(ss) && IsDisk(sectors, ss) && |sectors| < 0x1_0000_0000
    }

    constructor (ss: nat, sectors: V.Disk)
      requires SectorSize(ss) && IsDisk(sectors, ss) && |sectors| < 0x1_0000_0000
      ensures Valid() && this.ss == ss && this.sectors == sectors
    {
      this.ss, this.sectors := ss, sectors;
    }

    /** find_volume on a drive that is not mounted, with automatic choice of the partition. */
    method FindVolume() returns (m: Mount)
      requires Valid()
      ensures m == MountOf(sectors, ss)
    {
      hide Accept, CheckSector, PartitionStart;
      var bsect, fmt := 0, CheckFs(sectors, ss, 0);
      if fmt == OtherBoot {
        var i := 0;
        while true
          invariant 0 <= i < 4 && FindPartition(sectors, ss, 0) == FindPartition(sectors, ss, i)
          decreases 4 - i
        {
          bsect := PartitionStart(sectors[0], i);
          fmt := if bsect != 0 then CheckFs(sectors, ss, bsect) else NoBoot;
          if fmt == FatVbr || fmt == ExFatVbr { break; }
          if i + 1 == 4 { break; }
          i := i + 1;
        }
      }
      match fmt
      case DiskErr => return DiskError;
      case NoBoot | OtherBoot => return NoFileSystem;
      case ExFatVbr => return ExFatVolume;
      case FatVbr =>
        match Accept(Read(sectors[bsect]), ss, bsect)
        case Some(v) => return Mounted(v);
        case None => return NoFileSystem;
    }

    /** disk_write of one sector. */
    method Write(s: nat, data: seq<byte>)
      requires Valid() && s < |sectors| && |data| == ss
      modifies this
      ensures Valid() && sectors == old(sectors)[s := data]
    {
      sectors := sectors[s := data];
    }

    /** Writes `total` sectors from `sect` on, `first` and then zeros, as many at a
        time as the work buffer holds. */
    method Clear(first: seq<byte>, sect: nat, total: nat, szBuf: nat)
      requires Valid() && |first| == ss && sect + total <= |sectors| && szBuf > 0 && total > 0
      modifies this
      ensures Valid() && Cleared(old(sectors), sectors, first, sect, total, ss)
    {
      var buf, at, nsect: nat := first, sect, total;
      while nsect > 0
        invariant Valid() && at + nsect == sect + total && |buf| == ss
        invariant buf == if at == sect then first else Zeros(ss)
        invariant Cleared(old(sectors), sectors, first, sect, at - sect, ss)
        decreases nsect
      {
        var n := if nsect > szBuf then szBuf else nsect;
        ghost var was := sectors;
        for k := 0 to n
          invariant Valid() && Cleared(was, sectors, buf, at, k, ss)
        {
          Write(at + k, if k == 0 then buf else Zeros(ss));
        }
        buf := Zeros(ss);
        at, nsect := at + n, nsect - n;
      }
    }

    /** The boot sector, and on FAT32 its backup and the two FSINFO sectors. */
    method WriteBoot(base: nat, vbr: seq<byte>, large: bool, info: seq<byte>)
      requires Valid() && |vbr| == |info| == ss && base + (if large then 7 else 0) < |sectors|
      modifies this
      ensures Valid() && |sectors| == |old(sectors)| && sectors[base] == vbr
      ensures large ==> sectors[base + 1] == sectors[base + 7] == info && sectors[base + 6] == vbr
      ensures forall s :: 0 <= s < |sectors| && (s < base || base + 8 <= s || (!large && base < s)) ==>
        sectors[s] == old(sectors)[s]
    {
      Write(base, vbr);
      if large {
        Write(base + 6, vbr);
        Write(base + 7, info);
        Write(base + 1, info);
      }
    }

    /** The part of f_mkfs that writes the volume. */
    method WriteVolume(p: Params, l: Layout, sfd: bool, szBuf: nat, volId: nat)
      requires Valid() && p.Valid() && Fits(p, l) && p.ss == ss && |sectors| == p.base + p.vol && szBuf > 0
      requires p.base == if sfd then 0 else 63
      modifies this
      ensures Valid() && |sectors| == |old(sectors)| && Formatted(old(sectors), sectors, p, l, sfd, volId)
    {
      hide SectorSize, ClusterSize, Vbr, TypeOf, TableBytes, Mbr, FsInfo.Build, FirstFatSector, Fits, Formatted,
          Cleared;
      AreasFit(p, l);
      var large := l.t == Fat32;
      var vbr := Vbr(p, l, volId);
      var info := FsInfo.Build(ss, if large then l.clusters - 1 else 0, 2);
      WriteBoot(p.base, vbr, large, info);
      var bFat, sz := p.base + l.rsv, if large then l.pau else l.dir;
      ghost var d1 := sectors;
      Clear(FirstFatSector(l.t, ss), bFat, l.fat, szBuf);
      ghost var d2 := sectors;
      Clear(Zeros(ss), bFat + l.fat, sz, szBuf);
      ghost var d3 := sectors;
      if !sfd { Write(0, Mbr(ss, p.base, p.vol, SystemId(l.t, p.vol))); }
      WrittenIsFormatted(old(sectors), d1, d2, d3, sectors, p, l, sfd, volId);
    }

    /** f_mkfs on a drive whose erase block is `blk0` sectors. */
    method Format(req: Request, blk0: nat, szBuf: nat, volId: nat) returns (r: Result)
      requires Valid()
      modifies this
      ensures Valid() && r == Decide(req, blk0, szBuf, ss, |sectors|)
      ensures !r.Done? ==> sectors == old(sectors)
      ensures r.Done? ==>
                && r.p.Valid() && r.p.ss == ss && r.p.base + r.p.vol == |sectors| && Fits(r.p, r.l)
                && Formatted(old(sectors), sectors, r.p, r.l, req.sfd, volId)
                && MountOf(sectors, ss) == (if r.l.clusters >= 1 then Mounted(VolumeOf(r.p, r.l)) else NoFileSystem)
                && (r.p.blk == 1 ==> r.l.clusters >= 16)
                && (req.au != 0 ==> r.l.pau == req.au / ss) && (if r.l.t == Fat32 then req.fat32 else req.fat)
      ensures r == Aborted && req.au == 0 && req.fat && req.fat32 && !req.exfat && szBuf > 0 ==>
                |sectors| < 128 + 63 || BlockOf(blk0) != 1
    {
      hide Settle, Fits, SectorSize, Formatted, MountOf, VolumeOf, ClusterSize, PowerOfTwo;
      var blk := BlockOf(blk0);
      if (req.au != 0 && req.au < ss) || req.au > 0x100_0000
          || (req.au != 0 && !PowerOfTwo(req.au)) { return InvalidParameter; }
      var au := req.au / ss;
      if szBuf == 0 { return Aborted; }
      var base := if req.sfd then 0 else 63;
      if |sectors| < base { return Aborted; }
      var vol := |sectors| - base;
      if vol < 128 { return Aborted; }
      if req.exfat && ((!req.fat && !req.fat32) || vol >= 0x400_0000 || au > 128) { return ExFat; }
      if au > 128 { return InvalidParameter; }
      var fmt;
      if req.fat32 && !req.fat {
        fmt := Fat32;
      } else {
        if !req.fat { return InvalidParameter; }
        fmt := Fat16;
      }
      var p := Params(vol, base, ss, blk, req.fat32);
      UnitIsUsable(req.au, ss);
      var o := ChooseLayout(p, fmt, au);
      LayoutFacts(p, fmt, au);
      match o
      case Chosen(l) =>
        WriteVolume(p, l, req.sfd, szBuf, volId);
        FormattedMounts(old(sectors), sectors, p, l, req.sfd, volId);
        r := Done(p, l);
      case _ => r := Aborted;
    }
  }

  /** One pass of the format loop, step by step as the source takes it. */
  method TryLayout(p: Params, fmt0: FatType, au: nat) returns (o: Outcome)
    requires p.Valid() && fmt0 != Fat12 && (au == 0 || ClusterSize(au))
    ensures o == Attempt(p, fmt0, au)
  {
    hide SectorSize, ClusterSize, Place, U32, SmallBytes, SmallType;
    var fmt, pau := fmt0, au;
    if pau == 0 {
      if fmt == Fat32 { pau := AutoUnit(CST32, p.vol / 0x2_0000); } else { pau := AutoUnit(CST, p.vol / 0x1000); }
    }
    assert pau == TryUnit(p, fmt0, au);
    hide TryUnit;
    var nClst, szFat, szRsv, szDir := p.vol / pau, 0, 0, 0;
    if fmt == Fat32 {
      szFat := LargeFat(nClst, p.ss);
      szRsv, szDir := 32, 0;
      if nClst <= MAX_FAT16 || nClst > MAX_FAT32 { return Abort; }
    } else {
      fmt, szFat := SizeSmallTable(fmt, nClst, p.ss);
      szRsv, szDir := 1, RootSize(p.ss);
    }
    o := PlaceLayout(p, fmt, au, pau, szRsv, szFat, szDir);
  }

  method SizeSmallTable(fmt0: FatType, nClst: nat, ss: nat) returns (fmt: FatType, szFat: nat)
    requires SectorSize(ss)
    ensures fmt == SmallType(fmt0, nClst) && szFat == SmallFat(nClst, ss)
  {
    fmt := fmt0;
    var n;
    if nClst > MAX_FAT12 {
      n := U32(nClst * 2 + 4);
    } else {
      fmt := Fat12;
      n := (nClst * 3 + 1) / 2 + 3;
    }
    szFat := U32(n + ss - 1) / ss;
  }

  method PlaceLayout(p: Params, fmt: FatType, au: nat, pau: nat, rsv: nat, fat: nat, szDir: nat) returns (o: Outcome)
    requires p.Valid() && ClusterSize(pau)
    ensures o == Place(p, fmt, au, pau, rsv, fat, szDir)
  {
    hide Align, U32, Judge;
    var szRsv, szFat := rsv, fat;
    var bData := p.base + szRsv + szFat + szDir;
    var n := Align(p, bData);
    if fmt == Fat32 { szRsv := szRsv + n; } else { szFat := szFat + n; }
    if p.vol < bData + pau * 16 - p.base { return Abort; }
    var nClst := U32(p.vol - szRsv - szFat - szDir) / pau;
    o := CheckLayout(p, au, fmt, pau, nClst, szRsv, szFat, szDir);
  }

  method CheckLayout(p: Params, au: nat, fmt: FatType, pau: nat, nClst: nat, szRsv: nat, szFat: nat, szDir: nat)
      returns (o: Outcome)
    ensures o == Judge(p, au, Layout(fmt, pau, nClst, szRsv, szFat, szDir))
  {
    if fmt == Fat32 {
      if nClst <= MAX_FAT16 {
        if au == 0 && pau / 2 != 0 { return Retry(Fat32, pau / 2); }
        return Abort;
      }
    }
    if fmt == Fat16 {
      if nClst > MAX_FAT16 {
        if au == 0 && pau * 2 <= 64 { return Retry(Fat16, pau * 2); }
        if p.fat32 { return Retry(Fat32, au); }
        if au == 0 && pau * 2 <= 128 { return Retry(Fat16, pau * 2); }
        return Abort;
      }
      if nClst <= MAX_FAT12 {
        if au == 0 && pau * 2 <= 128 { return Retry(Fat16, pau * 2); }
        return Abort;
      }
    }
    if fmt == Fat12 && nClst > MAX_FAT12 { return Abort; }
    return Chosen(Layout(fmt, pau, nClst, szRsv, szFat, szDir));
  }

  /** The cluster size a table gives for a volume of `n` units. */
  method AutoUnit(table: seq<nat>, n: nat) returns (pau: nat)
    requires |table| > 0 && table[|table| - 1] == 0
    ensures pau == Unit(table, n, 0, 1)
  {
    var i := 0;
    pau := 1;
    while table[i] != 0 && table[i] <= n
      invariant 0 <= i < |table| && Unit(table, n, 0, 1) == Unit(table, n, i, pau)
      decreases |table| - i
    {
      i, pau := i + 1, pau * 2;
    }
  }

  lemma LayoutFacts(p: Params, t: FatType, au: nat)
    requires p.Valid() && t != Fat12 && (au == 0 || ClusterSize(au)) && (t == Fat32 ==> p.fat32)
    ensures var o := Settle(p, t, au);
            && !o.Retry?
            && (o.Chosen? ==>
                  && Fits(p, o.l) && (p.blk == 1 ==> o.l.clusters >= 16)
                  && (au != 0 ==> o.l.pau == au) && (o.l.t == Fat32 ==> p.fat32) && (t == Fat32 ==> o.l.t == Fat32))
            && (p.blk == 1 && p.fat32 && t == Fat16 && au == 0 ==> o.Chosen?)
  {
    hide Settle, Fits;
    SettledFits(p, t, au);
    SettledAsAsked(p, t, au);
    if p.blk == 1 {
      SettledHasClusters(p, t, au);
      if p.fat32 { DefaultAlwaysFormats(p); }
    }
  }

  /** The retry loop of f_mkfs. */
  method ChooseLayout(p: Params, fmt0: FatType, au0: nat) returns (o: Outcome)
    requires p.Valid() && fmt0 != Fat12 && (au0 == 0 || ClusterSize(au0))
    ensures o == Settle(p, fmt0, au0)
  {
    hide Attempt, ClusterSize, Tries;
    var fmt, au := fmt0, au0;
    while true
      invariant fmt != Fat12 && (au == 0 || ClusterSize(au))
      invariant Settle(p, fmt, au) == Settle(p, fmt0, au0)
      decreases Tries(fmt, au)
    {
      RetryIsNearer(p, fmt, au);
      o := TryLayout(p, fmt, au);
      match o
      case Retry(t, a) => fmt, au := t, a;
      case _ => return;
    }
  }
}
