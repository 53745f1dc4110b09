/** A formatted drive is a volume the file system can work on: its geometry is
    valid, its table is a sound set of chains, and its hints are exact. */
module FreshVolume {
  import opened Bytes
  import opened FatEntries
  import FormatLayout
  import FatVolume
  import Chains = FatChains
  import FatFs
  import FsInfo
  import BootSector
  import F = Format

  /** The mounted volume in the terms of the sector window. */
  function GeometryOf(v: FormatLayout.Volume, ss: nat, nsect: nat): FatVolume.Geometry {
    FatVolume.Geometry(v.t, ss, v.csize, v.nFats, v.fsize, v.nFatent, v.volbase, v.fatbase, v.database, nsect)
  }

  function FreshGeometry(p: FormatLayout.Params, l: FormatLayout.Layout): FatVolume.Geometry {
    GeometryOf(FormatLayout.VolumeOf(p, l), p.ss, p.base + p.vol)
  }

  lemma GeometryIsValid(p: FormatLayout.Params, l: FormatLayout.Layout)
    requires p.Valid() && FormatLayout.Fits(p, l) && l.clusters >= 1 && p.base + p.vol < FatVolume.MAX_DWORD
    ensures FreshGeometry(p, l).Valid()
  {
    hide TableBytes;
    FormatLayout.LinearFacts(p, l);
    var rest := p.vol - l.rsv - l.fat - l.dir;
    ClustersInside(rest, l.pau);
  }

  lemma ClustersInside(rest: nat, pau: nat)
    requires FormatLayout.ClusterSize(pau)
    ensures rest / pau * pau <= rest
  {
  }

  /** Bytes of a fresh table before the entries of the clusters, the root directory's included. */
  function HeadBytes(t: FatType): nat {
    match t
    case Fat12 => 3
    case Fat16 => 4
    case Fat32 => 12
  }

  lemma FirstSectorBytes(t: FatType, ss: nat)
    requires ss >= 512
    ensures forall i :: HeadBytes(t) <= i < ss ==> F.FirstFatSector(t, ss)[i] == 0
    ensures t == Fat32 ==> LdDword(F.FirstFatSector(t, ss), 8) == 0x0FFF_FFFF
  {
  }

  /** All of a fresh table behind its head is zero. */
  lemma FreshByte(g: FatVolume.Geometry, d: FatVolume.Disk, i: nat)
    requires g.Valid() && g.IsDisk(d) && i < g.fsize * g.ss
    requires d[g.fatbase] == F.FirstFatSector(g.t, g.ss)
    requires forall s :: g.fatbase < s < g.fatbase + g.fsize ==> d[s] == BootSector.Zeros(g.ss)
    ensures FatVolume.FlatFat(g, d)[i] == if i / g.ss == 0 then F.FirstFatSector(g.t, g.ss)[i] else 0
  {
    hide F.FirstFatSector, FatVolume.Geometry.Valid;
    FatVolume.FlatFatAt(g, d, i);
    if i / g.ss == 0 { SmallRemainder(i, g.ss); }
  }

  lemma SmallRemainder(i: nat, ss: nat)
    requires ss > 0 && i / ss == 0
    ensures i % ss == i
  {
  }

  /** The first sector's table bytes and what follows, as a drive and a geometry see them. */
  ghost predicate FreshTable(g: FatVolume.Geometry, d: FatVolume.Disk)
    requires g.Valid() && g.IsDisk(d)
  {
    && g.fatbase + g.fsize <= |d|
    && d[g.fatbase] == F.FirstFatSector(g.t, g.ss)
    && forall s :: g.fatbase < s < g.fatbase + g.fsize ==> d[s] == BootSector.Zeros(g.ss)
  }

  lemma FreshZero(g: FatVolume.Geometry, d: FatVolume.Disk, i: nat)
    requires g.Valid() && g.IsDisk(d) && FreshTable(g, d) && HeadBytes(g.t) <= i < g.fsize * g.ss
    ensures FatVolume.FlatFat(g, d)[i] == 0
  {
    hide F.FirstFatSector, FatVolume.FlatFat;
    FreshByte(g, d, i);
    FirstSectorBytes(g.t, g.ss);
    if i / g.ss == 0 { BelowSector(i, g.ss); }
  }

  lemma BelowSector(i: nat, ss: nat)
    requires ss > 0 && i / ss == 0
    ensures i < ss
  {
  }

  lemma FreshEntry(g: FatVolume.Geometry, d: FatVolume.Disk, c: nat)
    requires g.Valid() && g.IsDisk(d) && FreshTable(g, d) && 2 <= c < g.nFatent
    ensures FatVolume.Table(g, d)[c] == if g.t == Fat32 && c == 2 then 0x0FFF_FFFF else 0
  {
    hide FatVolume.FlatFat, FreshTable, F.FirstFatSector, FatVolume.Geometry.Valid, FatVolume.Table;
    FatVolume.TableAt(g, d, c);
    var o := EntryOffset(g.t, c);
    if g.t == Fat32 && c == 2 {
      RootEntry(g, d);
    } else {
      FreshZero(g, d, o);
      FreshZero(g, d, o + 1);
      if g.t == Fat32 {
        FreshZero(g, d, o + 2);
        FreshZero(g, d, o + 3);
      }
    }
  }

  lemma RootEntry(g: FatVolume.Geometry, d: FatVolume.Disk)
    requires g.Valid() && g.IsDisk(d) && FreshTable(g, d) && g.t == Fat32
    ensures 12 <= g.fsize * g.ss && LdDword(FatVolume.FlatFat(g, d), 8) == 0x0FFF_FFFF
  {
    hide FatVolume.FlatFat, F.FirstFatSector;
    FatVolume.TableAt(g, d, 2);
    hide FatVolume.Table;
    FirstSectorBytes(g.t, g.ss);
    FirstQuotient(g.ss);
    FreshByte(g, d, 8);
    FreshByte(g, d, 9);
    FreshByte(g, d, 10);
    FreshByte(g, d, 11);
  }

  /** The two entries that stand for no cluster hold the media type and an end mark. */
  lemma FirstEntries(g: FatVolume.Geometry, d: FatVolume.Disk)
    requires g.Valid() && g.IsDisk(d) && FreshTable(g, d)
    ensures var fat := FatVolume.Table(g, d);
        match g.t
        case Fat12 => fat[0] == 0xFF8 && fat[1] == 0xFFF
        case Fat16 => fat[0] == 0xFFF8 && fat[1] == 0xFFFF
        case Fat32 => fat[0] == 0x0FFF_FFF8 && fat[1] == 0x0FFF_FFFF
  {
    hide FatVolume.FlatFat, F.FirstFatSector;
    assert g.nFatent >= 3;
    FatVolume.TableAt(g, d, 0);
    FatVolume.TableAt(g, d, 1);
    hide FatVolume.Table;
    MediaBytes(g.t, g.ss);
    LowBytes(g, d);
  }

  lemma MediaBytes(t: FatType, ss: nat)
    requires ss >= 512
    ensures var b := F.FirstFatSector(t, ss);
        && b[0] == 0xF8 && b[1] == 0xFF && b[2] == 0xFF && (t != Fat12 ==> b[3] == 0xFF)
        && (t == Fat32 ==> b[4] == b[5] == b[6] == b[7] == 0xFF)
  {
  }

  lemma LowBytes(g: FatVolume.Geometry, d: FatVolume.Disk)
    requires g.Valid() && g.IsDisk(d) && FreshTable(g, d)
    ensures forall i :: 0 <= i < 8 && i < g.fsize * g.ss ==>
        FatVolume.FlatFat(g, d)[i] == F.FirstFatSector(g.t, g.ss)[i]
  {
    hide FatVolume.FlatFat, F.FirstFatSector;
    forall i | 0 <= i < 8 && i < g.fsize * g.ss
      ensures FatVolume.FlatFat(g, d)[i] == F.FirstFatSector(g.t, g.ss)[i]
    {
      FreshByte(g, d, i);
    }
  }

  lemma FirstQuotient(ss: nat)
    requires ss >= 512
    ensures 8 / ss == 9 / ss == 10 / ss == 11 / ss == 0
  {
  }

  /** A table with nothing but a possible root directory is sound, and its free
      clusters are all the others. */
  lemma FreshTableIsSound(fat: seq<nat>, large: bool)
    requires |fat| >= 3 && |fat| <= 0x0FFF_FFFF
    requires forall c :: 2 <= c < |fat| ==> fat[c] == if large && c == 2 then 0x0FFF_FFFF else 0
    ensures Chains.Sound(fat)
    ensures Chains.FreeClusters(fat) == |fat| - 2 - (if large then 1 else 0)
    ensures large ==> Chains.IsWhole(fat, [2])
  {
    if large {
      assert Chains.IsChain(fat, [2]);
      assert [2][0] == 2;
      assert Chains.Ends(fat, 2);
      assert fat[2..] == [0x0FFF_FFFF] + fat[3..];
      AllZero(fat[3..]);
    } else {
      AllZero(fat[2..]);
    }
  }

  lemma {:induction false} AllZero(s: seq<nat>)
    requires forall i :: 0 <= i < |s| ==> s[i] == 0
    ensures multiset(s)[0] == |s|
  {
    if s != [] {
      assert s == [s[0]] + s[1..];
      AllZero(s[1..]);
    }
  }

  lemma TableIsFresh(g: FatVolume.Geometry, d: FatVolume.Disk)
    requires g.Valid() && g.IsDisk(d) && FreshTable(g, d)
    ensures var fat := FatVolume.Table(g, d); var large := g.t == Fat32;
            && |fat| == g.nFatent && Chains.Sound(fat)
            && Chains.FreeClusters(fat) == g.nFatent - 2 - (if large then 1 else 0)
            && (large ==> Chains.IsWhole(fat, [2]))
            && Chains.ZeroEntries(fat) == Chains.FreeClusters(fat)
  {
    hide FatVolume.Table, FreshTable, Chains.ZeroEntries, Chains.Sound, Chains.IsWhole, Chains.FreeClusters;
    var fat := FatVolume.Table(g, d);
    forall c | 2 <= c < |fat| ensures fat[c] == if g.t == Fat32 && c == 2 then 0x0FFF_FFFF else 0 {
      FreshEntry(g, d, c);
    }
    FreshTableIsSound(fat, g.t == Fat32);
    FirstEntries(g, d);
    Chains.ScanIsExactIff(fat);
  }

  lemma AreasAreFresh(was: FatVolume.Disk, d: FatVolume.Disk, p: FormatLayout.Params, l: FormatLayout.Layout,
      sfd: bool, volId: nat)
    requires p.Valid() && FormatLayout.Fits(p, l) && F.Formatted(was, d, p, l, sfd, volId)
    requires l.clusters >= 1 && p.base + p.vol < FatVolume.MAX_DWORD
    ensures var g := FreshGeometry(p, l);
            && g.Valid() && g.IsDisk(d) && FreshTable(g, d)
            && (l.t == Fat32 ==> g.volbase + 1 < |d| && d[g.volbase + 1] == FsInfo.Build(p.ss, l.clusters - 1, 2))
            && F.ClearedEnd(p, l) <= |d|
            && forall s :: g.fatbase + g.fsize <= s < F.ClearedEnd(p, l) ==> d[s] == BootSector.Zeros(p.ss)
  {
    hide FormatLayout.SectorSize, FatVolume.Geometry.Valid, F.FirstFatSector, F.Mbr, F.Vbr, FsInfo.Build,
        FormatLayout.Fits;
    GeometryIsValid(p, l);
    F.AreasFit(p, l);
  }

  /** What formatting leaves for the mounted file system: a valid volume with
      sound, all-free chains, exact hints on FAT32, and an empty root directory. */
  lemma FormattedIsFresh(was: FatVolume.Disk, d: FatVolume.Disk, p: FormatLayout.Params, l: FormatLayout.Layout,
      sfd: bool, volId: nat)
    requires p.Valid() && FormatLayout.Fits(p, l) && F.Formatted(was, d, p, l, sfd, volId)
    requires l.clusters >= 1 && p.base + p.vol < FatVolume.MAX_DWORD
    ensures var g := FreshGeometry(p, l);
            && g.Valid() && g.IsDisk(d)
            && Chains.Sound(FatVolume.Table(g, d))
            && Chains.ZeroEntries(FatVolume.Table(g, d)) == Chains.FreeClusters(FatVolume.Table(g, d))
            && Chains.FreeClusters(FatVolume.Table(g, d)) == l.clusters - (if l.t == Fat32 then 1 else 0)
            && (l.t == Fat32 ==>
                  && Chains.IsWhole(FatVolume.Table(g, d), [2]) && g.volbase + 1 < |d|
                  && FsInfo.Read(d[g.volbase + 1]) == FsInfo.Hints(Chains.FreeClusters(FatVolume.Table(g, d)), 2))
            && F.ClearedEnd(p, l) <= |d|
            && forall s :: g.fatbase + g.fsize <= s < F.ClearedEnd(p, l) ==> d[s] == BootSector.Zeros(p.ss)
  {
    hide FormatLayout.SectorSize, FatVolume.Geometry.Valid, F.Formatted, FatVolume.Table, FreshTable,
        FormatLayout.Fits, FsInfo.Read, FsInfo.Build,
        Chains.Sound, Chains.IsWhole, Chains.FreeClusters, Chains.ZeroEntries;
    AreasAreFresh(was, d, p, l, sfd, volId);
    FormatLayout.LinearFacts(p, l);
    TableIsFresh(FreshGeometry(p, l), d);
    if l.t == Fat32 { FsInfo.HintsRoundTrip(p.ss, l.clusters - 1, 2); }
  }

  /** Mounting a freshly formatted FAT32 drive: the file system starts with an exact
      free count, which RunKeepsCount then keeps over every run. */
  method MountFresh(g: FatVolume.Geometry, d: FatVolume.Disk) returns (fs: FatFs.FileSystem)
    requires g.Valid() && g.IsDisk(d) && g.t == Fat32 && g.volbase + 1 < g.nsect
    requires FsInfo.Read(d[g.volbase + 1]) == FsInfo.Hints(Chains.FreeClusters(FatVolume.Table(g, d)), 2)
    ensures fresh(fs) && fs.Valid() && fs.g == g && fs.Store() == d
    ensures fs.freeClst == Chains.FreeClusters(fs.Fat()) && fs.lastClst == 2
  {
    hide FatVolume.Geometry.Valid, FatVolume.Table, FsInfo.Read, Chains.FreeClusters, FatFs.FileSystem.Store;
    fs := new FatFs.FileSystem.Mount(g, d, true);
    fs.LoadHints();
    assert fs.Fat() == FatVolume.Table(g, d);
  }
}
