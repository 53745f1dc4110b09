/** The arithmetic of formatting and mounting: how f_mkfs settles on a layout for a
    volume and what find_volume accepts (ff.c).  DWORD arithmetic wraps at 2^32. */
module FormatLayout {
  import opened Options
  import opened Arith
  import opened FatEntries

  const MAX_FAT12: nat := 0xFF5
  const MAX_FAT16: nat := 0xFFF5
  const MAX_FAT32: nat := 0xFFFFFF5
  const ROOT_ENTRIES: nat := 512

  /** Cluster size boundaries, in units of 4K and of 128K sectors. */
  const CST: seq<nat> := [1, 4, 16, 64, 256, 512, 0]
  const CST32: seq<nat> := [1, 2, 4, 8, 16, 32, 0]

  function U32(x: int): (r: nat)
    ensures r < 0x1_0000_0000
    ensures 0 <= x < 0x1_0000_0000 ==> r == x
  {
    x % 0x1_0000_0000
  }

  predicate SectorSize(ss: nat)
    ensures SectorSize(ss) ==> ss >= 512
  {
    ss in {512, 1024, 2048, 4096}
  }
  predicate ClusterSize(c: nat)
    ensures ClusterSize(c) ==> c != 0
  {
    c in {1, 2, 4, 8, 16, 32, 64, 128}
  }

  /** What is being formatted: `vol` sectors of `ss` bytes from sector `base` on,
      erase blocks of `blk` sectors, and whether FAT32 may be chosen. */
  datatype Params = Params(vol: nat, base: nat, ss: nat, blk: nat, fat32: bool) {
    predicate Valid() {
      && 128 <= vol && base + vol < 0x1_0000_0000 && base <= 63
      && SectorSize(ss) && 1 <= blk <= 0x8000
    }
  }

  /** A volume layout: type, sectors per cluster, clusters, and the sectors of the
      reserved area, of one table and of the fixed root directory. */
  datatype Layout = Layout(t: FatType, pau: nat, clusters: nat, rsv: nat, fat: nat, dir: nat)

  datatype Outcome = Chosen(l: Layout) | Retry(t: FatType, au: nat) | Abort

  function Unit(table: seq<nat>, n: nat, i: nat, pau: nat): nat
    requires i < |table| && table[|table| - 1] == 0
    decreases |table| - i
  {
    if table[i] == 0 || table[i] > n then pau else Unit(table, n, i + 1, pau * 2)
  }

  lemma UnitOf(n: nat)
    ensures Unit(CST, n, 0, 1)
            == if n < 1 then 1 else if n < 4 then 2 else if n < 16 then 4 else if n < 64 then 8
               else if n < 256 then 16 else if n < 512 then 32 else 64
    ensures Unit(CST32, n, 0, 1)
            == if n < 1 then 1 else if n < 2 then 2 else if n < 4 then 4 else if n < 8 then 8
               else if n < 16 then 16 else if n < 32 then 32 else 64
  {
  }

  /** The cluster size of a try: the one asked for, or one from the table. */
  function TryUnit(p: Params, t: FatType, au: nat): (pau: nat)
    requires au == 0 || ClusterSize(au)
    ensures ClusterSize(pau)
  {
    UnitOf(p.vol / 0x2_0000);
    UnitOf(p.vol / 0x1000);
    if au != 0 then au
    else if t == Fat32 then Unit(CST32, p.vol / 0x2_0000, 0, 1)
    else Unit(CST, p.vol / 0x1000, 0, 1)
  }

  /** Left to itself a FAT32 try takes the smallest power of two above the volume's units of 64 MiB, up to 64. */
  lemma DefaultLargeUnit(p: Params)
    ensures var pau := TryUnit(p, Fat32, 0);
        && (p.vol < 0x2_0000 * pau || pau == 64) && (pau > 1 ==> 0x2_0000 * (pau / 2) <= p.vol)
  {
    UnitOf(p.vol / 0x2_0000);
    hide Unit;
  }

  /** Sectors to add so that the data area starts at an erase block. */
  function Align(p: Params, data: nat): (n: nat)
    requires p.blk > 0
    ensures n < p.blk && (data + n) % p.blk == 0
  {
    var r := data % p.blk;
    if r == 0 then 0
    else
      DivUnique(data + (p.blk - r), p.blk, data / p.blk + 1, 0);
      p.blk - r
  }

  /** Type and bytes of table a FAT12/16 try provides for, from a first count of clusters. */
  function SmallType(t: FatType, n0: nat): FatType { if n0 > MAX_FAT12 then t else Fat12 }
  function SmallBytes(n0: nat): nat { if n0 > MAX_FAT12 then U32(n0 * 2 + 4) else (n0 * 3 + 1) / 2 + 3 }

  function SmallFat(n0: nat, ss: nat): nat
    requires SectorSize(ss)
  {
    U32(SmallBytes(n0) + ss - 1) / ss
  }

  function LargeFat(n0: nat, ss: nat): nat
    requires SectorSize(ss)
  {
    (n0 * 4 + 8 + ss - 1) / ss
  }

  function RootSize(ss: nat): nat
    requires SectorSize(ss)
  {
    ROOT_ENTRIES * 32 / ss
  }

  /** One pass of the retry loop of f_mkfs. */
  function Attempt(p: Params, t: FatType, au: nat): Outcome
    requires p.Valid() && (au == 0 || ClusterSize(au))
  {
    var pau := TryUnit(p, t, au);
    var n0 := p.vol / pau;
    if t == Fat32 && (n0 <= MAX_FAT16 || n0 > MAX_FAT32) then Abort
    else if t == Fat32 then
      Place(p, t, au, pau, 32, LargeFat(n0, p.ss), 0)
    else
      Place(p, SmallType(t, n0), au, pau, 1, SmallFat(n0, p.ss), RootSize(p.ss))
  }

  /** The second half of a pass: aligning the data area and the final checks. */
  function Place(p: Params, t: FatType, au: nat, pau: nat, rsv0: nat, fat0: nat, dir: nat): Outcome
    requires p.Valid() && ClusterSize(pau)
  {
    var data := p.base + rsv0 + fat0 + dir;
    var n := Align(p, data);
    var rsv := if t == Fat32 then rsv0 + n else rsv0;
    var fat := if t == Fat32 then fat0 else fat0 + n;
    if p.vol < data + pau * 16 - p.base then Abort
    else
      var n1 := U32(p.vol - rsv - fat - dir) / pau;
      Judge(p, au, Layout(t, pau, n1, rsv, fat, dir))
  }

  function Judge(p: Params, au: nat, l: Layout): Outcome {
    if l.t == Fat32 && l.clusters <= MAX_FAT16 then
      if au == 0 && l.pau / 2 != 0 then Retry(Fat32, l.pau / 2) else Abort
    else if l.t == Fat16 && l.clusters > MAX_FAT16 then
      if au == 0 && l.pau * 2 <= 64 then Retry(Fat16, l.pau * 2)
      else if p.fat32 then Retry(Fat32, au)
      else if au == 0 && l.pau * 2 <= 128 then Retry(Fat16, l.pau * 2)
      else Abort
    else if l.t == Fat16 && l.clusters <= MAX_FAT12 then
      if au == 0 && l.pau * 2 <= 128 then Retry(Fat16, l.pau * 2) else Abort
    else if l.t == Fat12 && l.clusters > MAX_FAT12 then Abort
    else Chosen(l)
  }

  /**
   What follows a pass that chose the cluster size itself and found the wrong number of clusters: FAT32 tries smaller
   clusters, FAT16 larger ones up to 64 sectors, then FAT32 if it may, then 128 sectors; else formatting gives up.
   */
  lemma JudgedBy(p: Params, l: Layout)
    requires ClusterSize(l.pau)
    ensures var o := Judge(p, 0, l);
        match l.t
        case Fat32 => o == if l.clusters > 0xFFF5 then Chosen(l) else if l.pau > 1 then Retry(Fat32, l.pau / 2)
            else Abort
        case Fat12 => o == if l.clusters > 0xFF5 then Abort else Chosen(l)
        case Fat16 =>
          o == if 0xFF5 < l.clusters <= 0xFFF5 then Chosen(l)
               else if l.clusters > 0xFFF5 && p.fat32 && l.pau >= 64 then Retry(Fat32, 0)
               else if l.pau == 128 then Abort
               else Retry(Fat16, 2 * l.pau)
  {
  }

  function Tries(t: FatType, au: nat): nat {
    (if au == 0 then 1 else 0) + (if t == Fat32 then 0 else 1)
  }

  /** Why the retry loop ends: a retry fixes the cluster size or goes over to FAT32. */
  lemma RetryIsNearer(p: Params, t: FatType, au: nat)
    requires p.Valid() && (au == 0 || ClusterSize(au))
    ensures var o := Attempt(p, t, au); o.Retry? ==>
        Tries(o.t, o.au) < Tries(t, au) && o.t != Fat12 && (o.au == 0 || ClusterSize(o.au))
  {
    hide Align, U32, Params.Valid, TryUnit;
  }

  function Settle(p: Params, t: FatType, au: nat): Outcome
    requires p.Valid() && (au == 0 || ClusterSize(au))
    decreases Tries(t, au)
  {
    RetryIsNearer(p, t, au);
    match Attempt(p, t, au)
    case Retry(t', au') => Settle(p, t', au')
    case o => o
  }

  /** The fields of a boot sector the mount code looks at. */
  datatype Bpb = Bpb(bytsPerSec: nat, secPerClus: nat, rsvdSecCnt: nat, numFats: nat, rootEntCnt: nat, totSec16: nat,
                     fatSz16: nat, totSec32: nat, fatSz32: nat, fsVer: nat, rootClus: nat, fsInfo: nat)

  /** A mounted volume: what find_volume leaves in the FATFS object. */
  datatype Volume = Volume(t: FatType, csize: nat, nFats: nat, fsize: nat, nFatent: nat, rootEnts: nat,
                           volbase: nat, fatbase: nat, database: nat, dirbase: nat, hinted: bool)

  /** The fields f_mkfs stores for a layout. */
  function FieldsOf(p: Params, l: Layout): Bpb {
    Bpb(p.ss, l.pau % 0x100, l.rsv % 0x1_0000, 1, if l.t == Fat32 then 0 else ROOT_ENTRIES,
        if p.vol < 0x1_0000 then p.vol else 0,
        if l.t == Fat32 then 0 else l.fat % 0x1_0000,
        if p.vol < 0x1_0000 then 0 else p.vol,
        if l.t == Fat32 then l.fat else 0,
        0, if l.t == Fat32 then 2 else 0, if l.t == Fat32 then 1 else 0)
  }

  function TypeOf(nclst: nat): FatType {
    if nclst <= MAX_FAT12 then Fat12 else if nclst <= MAX_FAT16 then Fat16 else Fat32
  }

  /** find_volume on a boot sector at sector `bsect` of a drive with `ss` bytes a sector. */
  function Accept(b: Bpb, ss: nat, bsect: nat): Option<Volume>
    requires SectorSize(ss)
  {
    if b.bytsPerSec != ss then None
    else
      var fsize := if b.fatSz16 == 0 then b.fatSz32 else b.fatSz16;
      if b.numFats != 1 && b.numFats != 2 then None
      else if !ClusterSize(b.secPerClus) then None
      else if b.rootEntCnt % (ss / 32) != 0 then None
      else
        var tsect := if b.totSec16 == 0 then b.totSec32 else b.totSec16;
        var sysect := U32(b.rsvdSecCnt + U32(fsize * b.numFats) + b.rootEntCnt / (ss / 32));
        if b.rsvdSecCnt == 0 || tsect < sysect then None
        else
          var nclst := (tsect - sysect) / b.secPerClus;
          if nclst == 0 then None else AcceptType(b, ss, bsect, fsize, sysect, nclst)
  }

  function AcceptType(b: Bpb, ss: nat, bsect: nat, fsize: nat, sysect: nat, nclst: nat): Option<Volume>
    requires SectorSize(ss)
  {
    var t, n := TypeOf(nclst), U32(nclst + 2);
    if t == Fat32 && (b.fsVer != 0 || b.rootEntCnt != 0) then None
    else if t != Fat32 && b.rootEntCnt == 0 then None
    else if fsize < U32(U32(TableBytes(t, n)) + ss - 1) / ss then None
    else
      Some(Volume(t, b.secPerClus, b.numFats, fsize, n, b.rootEntCnt, bsect, U32(bsect + b.rsvdSecCnt),
          U32(bsect + sysect),
                  if t == Fat32 then b.rootClus else U32(U32(bsect + b.rsvdSecCnt) + U32(fsize * b.numFats)),
                  t == Fat32 && b.fsInfo == 1))
  }

  /** A layout that fits its volume: sizes that add up, a table large enough, an
      aligned data area, and clusters in the range of its type. */
  ghost predicate Fits(p: Params, l: Layout)
    requires p.Valid()
  {
    && ClusterSize(l.pau)
    && 1 <= l.rsv < 0x1_0000 && (l.t == Fat32 ==> l.rsv >= 32) && 1 <= l.fat && (l.t != Fat32 ==> l.fat < 0x1_0000)
    && l.dir == (if l.t == Fat32 then 0 else RootSize(p.ss))
    && l.rsv + l.fat + l.dir <= p.vol
    && l.clusters == (p.vol - l.rsv - l.fat - l.dir) / l.pau
    && l.clusters <= MAX_FAT32 && TypeOf(l.clusters) == l.t
    && TableBytes(l.t, l.clusters + 2) <= l.fat * p.ss
    && (p.base + l.rsv + l.fat + l.dir) % p.blk == 0
  }

  lemma CeilBounds(n: nat, ss: nat)
    requires SectorSize(ss)
    ensures var c := (n + ss - 1) / ss; n <= c * ss && c <= n / 512 + 1
  {
  }

  lemma FewerClusters(vol: nat, less: nat, pau: nat)
    requires less <= vol && ClusterSize(pau)
    ensures (vol - less) / pau <= vol / pau
  {
  }

  /** A difference that wrapped would have counted far too many clusters. */
  lemma WrappedIsHuge(x: int, pau: nat)
    requires -0x100_0000 <= x < 0x1_0000_0000 && ClusterSize(pau)
    requires U32(x) / pau <= MAX_FAT16
    ensures x >= 0
  {
  }

  /** The first count exceeds the final one by no more than the sectors taken away. */
  lemma FirstCount(vol: nat, less: nat, pau: nat)
    requires less <= vol && ClusterSize(pau)
    ensures vol / pau <= (vol - less) / pau + less + 1
  {
  }

  lemma SmallBounds(vol: nat, pau: nat, ss: nat, n: nat, n0: nat, fat0: nat, dir: nat)
    requires SectorSize(ss) && ClusterSize(pau) && vol < 0x1_0000_0000 && n0 == vol / pau && n < 0x8000
    requires fat0 == SmallFat(n0, ss) && dir == RootSize(ss)
    requires 1 + fat0 + n + dir <= vol && (vol - (1 + fat0 + n + dir)) / pau <= MAX_FAT16
    ensures fat0 == ((if n0 > MAX_FAT12 then n0 * 2 + 4 else (n0 * 3 + 1) / 2 + 3) + ss - 1) / ss
    ensures fat0 + n < 0x1_0000
  {
    hide SectorSize, ClusterSize, SmallBytes, U32, RootSize;
    WordBound(SmallBytes(n0) + ss - 1, ss);
    RootSectors(ss);
    assert fat0 < 0x80_0000;
    hide SmallFat;
    FirstCount(vol, 1 + fat0 + n + dir, pau);
    NothingWraps(n0, ss);
    CeilBounds(SmallBytes(n0), ss);
  }

  lemma NothingWraps(n0: nat, ss: nat)
    requires SectorSize(ss) && n0 < 0x1000_0000
    ensures SmallBytes(n0) == (if n0 > MAX_FAT12 then n0 * 2 + 4 else (n0 * 3 + 1) / 2 + 3)
    ensures SmallFat(n0, ss) == (SmallBytes(n0) + ss - 1) / ss
  {
    assert ss <= 4096;
  }

  lemma WordBound(x: nat, ss: nat)
    requires SectorSize(ss)
    ensures U32(x) / ss < 0x80_0000
  {
  }

  lemma LargeBounds(n0: nat, ss: nat, n: nat)
    requires SectorSize(ss) && MAX_FAT16 < n0 <= MAX_FAT32 && n < 0x8000
    ensures 32 + LargeFat(n0, ss) + n <= n0
  {
    CeilBounds(n0 * 4 + 8, ss);
  }

  /** A table sized for the first count of clusters holds the final one. */
  lemma TableHolds(t: FatType, n0: nat, n1: nat, bytes: nat, fat: nat, ss: nat)
    requires SectorSize(ss) && n1 <= n0 && (bytes + ss - 1) / ss <= fat
    requires bytes >= (match t case Fat12 => (n0 * 3 + 1) / 2 + 3 case Fat16 => n0 * 2 + 4 case Fat32 => n0 * 4 + 8)
    ensures TableBytes(t, n1 + 2) <= fat * ss
  {
    assert TableBytes(t, n1 + 2) <= bytes;
    hide TableBytes;
    CeilCovers(bytes, fat, ss);
  }

  lemma CeilCovers(bytes: nat, fat: nat, ss: nat)
    requires SectorSize(ss) && (bytes + ss - 1) / ss <= fat
    ensures bytes <= fat * ss
  {
    if ss == 512 {
    } else if ss == 1024 {
    } else if ss == 2048 {
    } else {
      assert ss == 4096;
    }
  }

  lemma PlacedLarge(p: Params, au: nat, pau: nat, fat0: nat, n0: nat)
    requires p.Valid() && ClusterSize(pau) && n0 == p.vol / pau
    requires MAX_FAT16 < n0 <= MAX_FAT32 && fat0 == LargeFat(n0, p.ss)
    requires Place(p, Fat32, au, pau, 32, fat0, 0).Chosen?
    ensures Fits(p, Place(p, Fat32, au, pau, 32, fat0, 0).l)
  {
    hide Align, U32, ClusterSize, SectorSize, TableBytes;
    var n := Align(p, p.base + 32 + fat0);
    LargeBounds(n0, p.ss, n);
    Quotient(p.vol, pau);
    FewerClusters(p.vol, 32 + n + fat0, pau);
    var n1 := (p.vol - (32 + n + fat0)) / pau;
    TableHolds(Fat32, n0, n1, n0 * 4 + 8, fat0, p.ss);
    assert p.vol - (32 + n) - fat0 - 0 == p.vol - (32 + n + fat0);
  }

  lemma Quotient(v: nat, pau: nat)
    requires ClusterSize(pau)
    ensures v / pau <= v
  {
  }

  lemma AtLeastOne(bytes: nat, ss: nat)
    requires SectorSize(ss) && bytes > 0
    ensures (bytes + ss - 1) / ss >= 1
  {
    var q, r := (bytes + ss - 1) / ss, (bytes + ss - 1) % ss;
    assert bytes + ss - 1 == ss * q + r;
  }

  lemma SmallFits(vol: nat, pau: nat, ss: nat, n: nat, n0: nat, fat0: nat, dir: nat)
    requires SectorSize(ss) && ClusterSize(pau) && vol < 0x1_0000_0000 && n < 0x8000
    requires fat0 == SmallFat(n0, ss) && dir == RootSize(ss)
    requires U32(vol - 1 - (fat0 + n) - dir) / pau <= MAX_FAT16
    ensures 1 + (fat0 + n) + dir <= vol
    ensures U32(vol - 1 - (fat0 + n) - dir) == vol - 1 - (fat0 + n) - dir
  {
    hide SmallBytes, U32;
    WordBound(SmallBytes(n0) + ss - 1, ss);
    RootSectors(ss);
    hide SmallFat, RootSize, SectorSize, ClusterSize;
    WrappedIsHuge(vol - 1 - (fat0 + n) - dir, pau);
  }

  lemma SmallHolds(vol: nat, pau: nat, ss: nat, n: nat, n0: nat, fat0: nat, less: nat)
    requires SectorSize(ss) && ClusterSize(pau) && less <= vol && n0 == vol / pau
    requires fat0 == ((if n0 > MAX_FAT12 then n0 * 2 + 4 else (n0 * 3 + 1) / 2 + 3) + ss - 1) / ss
    ensures 1 <= fat0
    ensures TableBytes(SmallType(Fat16, n0), (vol - less) / pau + 2) <= (fat0 + n) * ss
  {
    hide TableBytes, SectorSize, ClusterSize;
    FewerClusters(vol, less, pau);
    var bytes := if n0 > MAX_FAT12 then n0 * 2 + 4 else (n0 * 3 + 1) / 2 + 3;
    AtLeastOne(bytes, ss);
    TableHolds(SmallType(Fat16, n0), n0, (vol - less) / pau, bytes, fat0 + n, ss);
  }

  lemma SmallFacts(vol: nat, pau: nat, ss: nat, n: nat, n0: nat, fat0: nat, dir: nat)
    requires SectorSize(ss) && ClusterSize(pau) && vol < 0x1_0000_0000 && n0 == vol / pau && n < 0x8000
    requires fat0 == SmallFat(n0, ss) && dir == RootSize(ss)
    requires U32(vol - 1 - (fat0 + n) - dir) / pau <= MAX_FAT16
    ensures 1 <= fat0 && fat0 + n < 0x1_0000 && 1 + (fat0 + n) + dir <= vol
    ensures U32(vol - 1 - (fat0 + n) - dir) == vol - 1 - (fat0 + n) - dir
    ensures TableBytes(SmallType(Fat16, n0), (vol - 1 - (fat0 + n) - dir) / pau + 2) <= (fat0 + n) * ss
  {
    hide SmallBytes, TableBytes, U32, SmallFat, RootSize, SectorSize, ClusterSize;
    SmallFits(vol, pau, ss, n, n0, fat0, dir);
    SmallBounds(vol, pau, ss, n, n0, fat0, dir);
    SmallHolds(vol, pau, ss, n, n0, fat0, 1 + fat0 + n + dir);
    assert vol - 1 - (fat0 + n) - dir == vol - (1 + fat0 + n + dir);
  }

  lemma PlacedSmall(p: Params, t: FatType, au: nat, pau: nat, fat0: nat, dir: nat, n0: nat)
    requires p.Valid() && ClusterSize(pau) && n0 == p.vol / pau
    requires t == SmallType(Fat16, n0) && fat0 == SmallFat(n0, p.ss) && dir == RootSize(p.ss)
    requires Place(p, t, au, pau, 1, fat0, dir).Chosen?
    ensures Fits(p, Place(p, t, au, pau, 1, fat0, dir).l)
  {
    hide Align, U32, SmallBytes, TableBytes, ClusterSize, SectorSize, SmallFat, RootSize;
    SmallFacts(p.vol, pau, p.ss, Align(p, p.base + 1 + fat0 + dir), n0, fat0, dir);
  }

  /** What the loop settles on is what its last pass found. */
  lemma {:induction false} LastTry(p: Params, t: FatType, au: nat) returns (t': FatType, au': nat)
    requires p.Valid() && t != Fat12 && (au == 0 || ClusterSize(au))
    ensures t' != Fat12 && (au' == 0 || ClusterSize(au'))
    ensures Settle(p, t, au) == Attempt(p, t', au') && !Settle(p, t, au).Retry?
    decreases Tries(t, au)
  {
    hide Attempt, ClusterSize, Tries;
    RetryIsNearer(p, t, au);
    t', au' := t, au;
    var o := Attempt(p, t, au);
    if o.Retry? { t', au' := LastTry(p, o.t, o.au); }
  }

  /** What is asked for is kept: a cluster size given is the one of the layout, and
      FAT32 comes only if it was asked for or allowed, the others only if they were. */
  lemma {:induction false} SettledAsAsked(p: Params, t: FatType, au: nat)
    requires p.Valid() && t != Fat12 && (au == 0 || ClusterSize(au))
    requires t == Fat32 ==> p.fat32
    ensures var o := Settle(p, t, au);
            o.Chosen? ==> (au != 0 ==> o.l.pau == au) && (o.l.t == Fat32 ==> p.fat32) && (t == Fat32 ==> o.l.t == Fat32)
    decreases Tries(t, au)
  {
    hide Align, U32, ClusterSize, SectorSize, Tries, SmallFat, LargeFat, RootSize;
    RetryIsNearer(p, t, au);
    var o := Attempt(p, t, au);
    if o.Retry? { SettledAsAsked(p, o.t, o.au); }
  }

  /** Everything f_mkfs settles on fits the volume, whatever was asked for. */
  lemma SettledFits(p: Params, t: FatType, au: nat)
    requires p.Valid() && t != Fat12 && (au == 0 || ClusterSize(au))
    ensures !Settle(p, t, au).Retry?
    ensures Settle(p, t, au).Chosen? ==> Fits(p, Settle(p, t, au).l)
  {
    hide Place, Fits, Tries, SmallBytes, U32, TryUnit, Settle, SmallFat, RootSize;
    var t', au' := LastTry(p, t, au);
    if Attempt(p, t', au').Chosen? {
      var pau := TryUnit(p, t', au');
      var n0 := p.vol / pau;
      if t' == Fat32 {
        PlacedLarge(p, au', pau, LargeFat(n0, p.ss), n0);
      } else {
        PlacedSmall(p, SmallType(t', n0), au', pau, SmallFat(n0, p.ss), RootSize(p.ss), n0);
      }
    }
  }

  /** The volume a layout is meant to become. */
  function VolumeOf(p: Params, l: Layout): Volume {
    var large := l.t == Fat32;
    Volume(l.t, l.pau, 1, l.fat, l.clusters + 2, if large then 0 else ROOT_ENTRIES, p.base, p.base + l.rsv,
           p.base + l.rsv + l.fat + l.dir, if large then 2 else p.base + l.rsv + l.fat, large)
  }

  lemma RootSectors(ss: nat)
    requires SectorSize(ss)
    ensures ROOT_ENTRIES % (ss / 32) == 0 && ROOT_ENTRIES / (ss / 32) == RootSize(ss)
    ensures 0 % (ss / 32) == 0 && 0 / (ss / 32) == 0 && RootSize(ss) <= 32
  {
    if ss == 512 {
      assert ss / 32 == 16;
    } else if ss == 1024 {
      assert ss / 32 == 32;
    } else if ss == 2048 {
      assert ss / 32 == 64;
    } else {
      assert ss / 32 == 128;
    }
  }

  lemma NoneOrSome(rest: nat, pau: nat)
    requires ClusterSize(pau)
    ensures pau % 0x100 == pau && (rest / pau == 0 <==> rest < pau)
  {
  }

  /** The mount code takes a layout that fits for exactly what it is, provided it
      has a cluster at all. */
  lemma MountsIff(p: Params, l: Layout)
    requires p.Valid() && Fits(p, l)
    ensures Accept(FieldsOf(p, l), p.ss, p.base) == if l.clusters >= 1 then Some(VolumeOf(p, l)) else None
  {
    hide U32, AcceptType, VolumeOf, TableBytes, TypeOf, SectorSize, ClusterSize;
    var sys := l.rsv + l.fat + l.dir;
    RootSectors(p.ss);
    LinearFacts(p, l);
    NoneOrSome(p.vol - sys, l.pau);
    if l.clusters >= 1 { TypeAccepted(p, l, sys); }
    assert l.clusters == (p.vol - sys) / l.pau by { assert p.vol - sys == p.vol - l.rsv - l.fat - l.dir; }
    hide Fits, RootSize;
    AcceptSteps(p, l, sys);
  }

  lemma AcceptSteps(p: Params, l: Layout, sys: nat)
    requires p.Valid() && ClusterSize(l.pau) && sys == l.rsv + l.fat + l.dir <= p.vol
    requires l.rsv % 0x1_0000 == l.rsv != 0 && l.fat != 0 && l.pau % 0x100 == l.pau
        && (l.t != Fat32 ==> l.fat < 0x1_0000)
    requires var ents := if l.t == Fat32 then 0 else ROOT_ENTRIES;
          && ents % (p.ss / 32) == 0
          && ents / (p.ss / 32) == l.dir
    ensures var nclst := (p.vol - sys) / l.pau;
            Accept(FieldsOf(p, l), p.ss, p.base)
            == if nclst == 0 then None else AcceptType(FieldsOf(p, l), p.ss, p.base, l.fat, sys, nclst)
  {
    hide U32, AcceptType, SectorSize, ClusterSize;
    var b := FieldsOf(p, l);
    assert (if b.totSec16 == 0 then b.totSec32 else b.totSec16) == p.vol;
    assert (if b.fatSz16 == 0 then b.fatSz32 else b.fatSz16) == l.fat;
    assert b.rootEntCnt % (p.ss / 32) == 0 && b.rootEntCnt / (p.ss / 32) == l.dir;
    assert U32(l.fat * 1) == l.fat && U32(sys) == sys;
  }

  lemma TypeAccepted(p: Params, l: Layout, sys: nat)
    requires p.Valid() && Fits(p, l) && l.clusters >= 1 && sys == l.rsv + l.fat + l.dir
    ensures AcceptType(FieldsOf(p, l), p.ss, p.base, l.fat, sys, l.clusters) == Some(VolumeOf(p, l))
  {
    hide U32, TableBytes;
    EnoughTable(p, l);
    LinearFacts(p, l);
    hide Fits, SectorSize, ClusterSize;
  }

  lemma LinearFacts(p: Params, l: Layout)
    requires p.Valid() && Fits(p, l)
    ensures l.pau % 0x100 == l.pau && l.rsv % 0x1_0000 == l.rsv && l.rsv + l.fat + l.dir <= p.vol
    ensures l.t == TypeOf(l.clusters) && l.clusters <= MAX_FAT32
    ensures 1 <= l.fat && (l.t != Fat32 ==> l.fat < 0x1_0000)
  {
    NoneOrSome(0, l.pau);
  }

  lemma EnoughTable(p: Params, l: Layout)
    requires p.Valid() && Fits(p, l)
    ensures U32(U32(TableBytes(l.t, U32(l.clusters + 2))) + p.ss - 1) / p.ss <= l.fat
  {
    var n := l.clusters + 2;
    assert U32(n) == n;
    assert TableBytes(l.t, n) <= 4 * n;
    hide U32;
    CeilFits(TableBytes(l.t, n), l.fat, p.ss);
    hide TableBytes, ClusterSize;
    var b := TableBytes(l.t, n) + p.ss - 1;
    assert p.ss <= 4096 && b < 0x1_0000_0000;
    hide Fits, SectorSize;
  }

  lemma CeilFits(bytes: nat, fat: nat, ss: nat)
    requires SectorSize(ss) && bytes <= fat * ss
    ensures (bytes + ss - 1) / ss <= fat
  {
  }

  /** Without erase blocks to align to, a layout that is settled on has 16 clusters. */
  lemma SettledHasClusters(p: Params, t: FatType, au: nat)
    requires p.Valid() && p.blk == 1 && t != Fat12 && (au == 0 || ClusterSize(au))
    ensures Settle(p, t, au).Chosen? ==> Settle(p, t, au).l.clusters >= 16
  {
    hide Tries, SmallBytes, U32, TryUnit, Place, Settle, SmallFat, RootSize;
    var t', au' := LastTry(p, t, au);
    if Attempt(p, t', au').Chosen? {
      var pau := TryUnit(p, t', au');
      var n0 := p.vol / pau;
      if t' == Fat32 {
        PlacedHasClusters(p, t', au', pau, 32, LargeFat(n0, p.ss), 0);
      } else {
        PlacedHasClusters(p, SmallType(t', n0), au', pau, 1, SmallFat(n0, p.ss), RootSize(p.ss));
      }
    }
  }

  lemma PlacedHasClusters(p: Params, t: FatType, au: nat, pau: nat, rsv0: nat, fat0: nat, dir: nat)
    requires p.Valid() && p.blk == 1 && ClusterSize(pau)
    requires Place(p, t, au, pau, rsv0, fat0, dir).Chosen?
    ensures Place(p, t, au, pau, rsv0, fat0, dir).l.clusters >= 16
  {
    hide Align, U32;
    var data := rsv0 + fat0 + dir;
    assert Align(p, p.base + data) == 0;
    SixteenUnits(p.vol, data, pau);
    hide ClusterSize;
    assert p.vol - rsv0 - fat0 - dir == p.vol - data;
  }

  lemma SixteenUnits(vol: nat, less: nat, pau: nat)
    requires ClusterSize(pau) && less + pau * 16 <= vol
    ensures (vol - less) / pau >= 16
  {
  }

  /** With erase blocks the data area may be pushed to the end of the volume: this
      layout is settled on, and the mount code refuses it. */
  lemma AlignedAway()
    ensures var p := Params(0x8000, 0, 512, 0x8000, false);
            p.Valid() && Settle(p, Fat16, 16).Chosen? && Settle(p, Fat16, 16).l.clusters == 0
  {
    hide Place, Align, SmallBytes, SmallType, SmallFat, RootSize;
    PlacedAway();
    var p := Params(0x8000, 0, 512, 0x8000, false);
    assert Attempt(p, Fat16, 16) == Place(p, Fat12, 16, 16, 1, 7, 32);
  }

  lemma PlacedAway()
    ensures SmallFat(2048, 512) == 7 && SmallType(Fat16, 2048) == Fat12 && RootSize(512) == 32
    ensures Place(Params(0x8000, 0, 512, 0x8000, false), Fat12, 16, 16, 1, 7, 32)
        == Chosen(Layout(Fat12, 16, 0, 1, 32735, 32))
  {
    assert Align(Params(0x8000, 0, 512, 0x8000, false), 40) == 32728;
    assert SmallBytes(2048) == 3075;
  }

  /** The FAT12/16 table of a try, when the count of clusters does not wrap. */
  lemma SmallTable(n0: nat, ss: nat)
    requires SectorSize(ss) && n0 < 0x1000_0000
    ensures SmallFat(n0, ss) <= n0 / 256 + 2
    ensures RootSize(ss) <= 32
  {
    RootSectors(ss);
    NothingWraps(n0, ss);
    CeilBounds(SmallBytes(n0), ss);
    hide SectorSize, SmallFat;
  }

  /** The outcome of a FAT12/16 try with room, by the counts of clusters alone. */
  lemma SmallTry(p: Params, au: nat, pau: nat, n0: nat) returns (l: Layout)
    requires p.Valid() && p.blk == 1 && (au == 0 || ClusterSize(au)) && pau == TryUnit(p, Fat16, au)
        && n0 == p.vol / pau
    requires n0 < 0x1000_0000 && (pau == 1 || n0 >= 1000)
    ensures l.clusters <= n0 <= l.clusters + 36 + n0 / 256
    ensures Attempt(p, Fat16, au) == Judge(p, au, l) && l.pau == pau && l.t == SmallType(Fat16, n0)
  {
    hide SmallBytes, Judge, U32, Place, TryUnit, SectorSize, ClusterSize, Attempt, SmallFat, RootSize, SmallType;
    var t, fat, dir := SmallType(Fat16, n0), SmallFat(n0, p.ss), RootSize(p.ss);
    SmallTable(n0, p.ss);
    var less := 1 + fat + dir;
    SmallCounts(p.vol, pau, n0, less);
    PlacedUnaligned(p, t, au, pau, 1, fat, dir, less);
    AttemptSmall(p, au);
    l := Layout(t, pau, (p.vol - less) / pau, 1, fat, dir);
  }

  lemma AttemptSmall(p: Params, au: nat)
    requires p.Valid() && (au == 0 || ClusterSize(au))
    ensures var pau := TryUnit(p, Fat16, au); var n0 := p.vol / pau;
            Attempt(p, Fat16, au)
            == Place(p, SmallType(Fat16, n0), au, pau, 1, SmallFat(n0, p.ss), RootSize(p.ss))
  {
  }

  lemma PlacedUnaligned(p: Params, t: FatType, au: nat, pau: nat, rsv: nat, fat: nat, dir: nat, less: nat)
    requires p.Valid() && p.blk == 1 && ClusterSize(pau)
    requires less == rsv + fat + dir && less + pau * 16 <= p.vol
    ensures Place(p, t, au, pau, rsv, fat, dir) == Judge(p, au, Layout(t, pau, (p.vol - less) / pau, rsv, fat, dir))
  {
    assert Align(p, p.base + less) == 0;
    hide Align, U32, Judge, ClusterSize, SectorSize, SmallFat, RootSize;
    assert p.vol - rsv - fat - dir == p.vol - less;
  }

  lemma SmallCounts(vol: nat, pau: nat, n0: nat, less: nat)
    requires ClusterSize(pau) && n0 == vol / pau && vol >= 128 && (pau == 1 || n0 >= 1000)
    requires less <= n0 / 256 + 35
    ensures less + pau * 16 <= vol
    ensures (vol - less) / pau <= n0 <= (vol - less) / pau + 36 + n0 / 256
  {
  }

  lemma TableUnit(p: Params)
    requires p.Valid()
    ensures var pau := TryUnit(p, Fat16, 0); var n0 := p.vol / pau;
            && pau <= 64 && (pau == 1 || n0 >= 2048) && n0 < 0x1000_0000
            && (if pau < 64 then n0 < 0x1_0000 else p.vol >= 0x20_0000)
            && ClusterSize(pau * 2) && p.vol / (pau * 2) == n0 / 2
  {
    UnitOf(p.vol / 0x1000);
  }

  /** A second try, at twice the cluster size, is the last one. */
  lemma SecondTry(p: Params, au: nat)
    requires p.Valid() && p.blk == 1 && ClusterSize(au)
    requires 1000 <= p.vol / au <= MAX_FAT12 || 5000 <= p.vol / au <= MAX_FAT16
    ensures Settle(p, Fat16, au).Chosen?
  {
    hide Attempt, SectorSize, ClusterSize;
    var n0 := p.vol / au;
    var l := SmallTry(p, au, au, n0);
  }

  lemma LargeUnit(p: Params)
    requires p.Valid() && p.vol > MAX_FAT16 * 64
    ensures var pau := TryUnit(p, Fat32, 0); var n0 := p.vol / pau;
            && pau <= 64 && (if pau == 64 then n0 >= 0x1_0000 else n0 >= 0x1_2000) && n0 <= MAX_FAT32
  {
    UnitOf(p.vol / 0x2_0000);
  }

  lemma LargeTry(p: Params)
    requires p.Valid() && p.blk == 1 && p.vol > MAX_FAT16 * 64
    ensures Settle(p, Fat32, 0).Chosen?
  {
    hide LargeFat, Place, TryUnit;
    LargeUnit(p);
    var pau := TryUnit(p, Fat32, 0);
    var n0 := p.vol / pau;
    var fat := LargeFat(n0, p.ss);
    LargeTable(n0, p.ss);
    LargeCounts(p.vol, pau, n0, 32 + fat);
    hide ClusterSize, SectorSize;
    PlacedUnaligned(p, Fat32, 0, pau, 32, fat, 0, 32 + fat);
  }

  lemma LargeTable(n0: nat, ss: nat)
    requires SectorSize(ss)
    ensures LargeFat(n0, ss) <= (n0 * 4 + 8) / 512 + 1
  {
    CeilBounds(n0 * 4 + 8, ss);
  }

  lemma LargeCounts(vol: nat, pau: nat, n0: nat, less: nat)
    requires ClusterSize(pau) && pau <= 64 && n0 == vol / pau && less <= 33 + (n0 * 4 + 8) / 512
    requires if pau == 64 then n0 >= 0x1_0000 else n0 >= 0x1_2000
    ensures less + pau * 16 <= vol && (vol - less) / pau > MAX_FAT16
  {
  }

  /** Left to choose by itself, without erase blocks, f_mkfs finds a layout for
      every volume of at least 128 sectors. */
  lemma DefaultAlwaysFormats(p: Params)
    requires p.Valid() && p.blk == 1 && p.fat32
    ensures Settle(p, Fat16, 0).Chosen?
  {
    hide Attempt, SectorSize, ClusterSize, Params.Valid, TryUnit;
    TableUnit(p);
    var pau := TryUnit(p, Fat16, 0);
    var n0 := p.vol / pau;
    var l := SmallTry(p, 0, pau, n0);
    if l.t == Fat16 && (l.clusters <= MAX_FAT12 || (l.clusters > MAX_FAT16 && pau < 64)) {
      SecondTry(p, pau * 2);
    } else if l.t == Fat16 && l.clusters > MAX_FAT16 {
      LargeTry(p);
    }
  }
}
