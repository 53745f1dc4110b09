/** The slots of a directory on the disk: 32-byte pieces of the sectors along its
    cluster chain, seen through the window (dir_sdi and dir_next of ff.c). */
module DirTable {
  import opened Arith
  import opened Bytes
  import opened FatVolume
  import opened FileData
  import opened FileSteps
  import opened FatFs
  import opened LfnEntries
  import Chains = FatChains
  import Dir = LfnDirectory

  const SZDIRE := 32

  /** Bytes cut into slots. */
  function SlotsOf(b: seq<byte>): (s: seq<Entry>)
    requires |b| % SZDIRE == 0
    ensures |s| == |b| / SZDIRE
  {
    seq(|b| / SZDIRE, i requires 0 <= i < |b| / SZDIRE => b[SZDIRE * i..SZDIRE * i + SZDIRE])
  }

  function Zeros(n: nat): (z: seq<byte>)
    ensures |z| == n && forall i :: 0 <= i < n ==> z[i] == 0
  {
    seq(n, _ => 0)
  }

  lemma SlotsOfSplice(b: seq<byte>, i: nat, e: Entry)
    requires |b| % SZDIRE == 0 && SZDIRE * i < |b|
    ensures |Splice(b, SZDIRE * i, e)| == |b| && i < |SlotsOf(b)|
    ensures SlotsOf(Splice(b, SZDIRE * i, e)) == SlotsOf(b)[i := e]
  {
    var c := Splice(b, SZDIRE * i, e);
    forall k | 0 <= k < |SlotsOf(b)| ensures SlotsOf(c)[k] == SlotsOf(b)[i := e][k] {
      assert SlotsOf(c)[k] == c[SZDIRE * k..SZDIRE * k + SZDIRE];
      if k != i {
        assert SlotsOf(b)[k] == b[SZDIRE * k..SZDIRE * k + SZDIRE];
        assert c[SZDIRE * k..SZDIRE * k + SZDIRE] == b[SZDIRE * k..SZDIRE * k + SZDIRE];
      } else {
        assert c[SZDIRE * k..SZDIRE * k + SZDIRE] == e;
      }
    }
  }

  lemma SlotsOfMore(b: seq<byte>, m: nat)
    requires |b| % SZDIRE == 0
    ensures SlotsOf(b + Zeros(SZDIRE * m)) == SlotsOf(b) + Dir.Blanks(m)
  {
    var c := b + Zeros(SZDIRE * m);
    forall k | 0 <= k < |SlotsOf(c)| ensures SlotsOf(c)[k] == (SlotsOf(b) + Dir.Blanks(m))[k] {
      if k < |SlotsOf(b)| {
        assert c[SZDIRE * k..SZDIRE * k + SZDIRE] == b[SZDIRE * k..SZDIRE * k + SZDIRE];
      } else {
        assert c[SZDIRE * k..SZDIRE * k + SZDIRE] == Dir.Blank();
      }
    }
  }

  /** The slots of a directory with the given clusters. */
  ghost function SlotsOn(g: Geometry, d: Disk, cs: seq<nat>): (s: seq<Entry>)
    requires g.Valid() && g.IsDisk(d) && IsLayout(g, cs)
    ensures |s| == Capacity(g, cs) / SZDIRE
  {
    WholeSlots(g, cs);
    SlotsOf(FileBytes(g, d, cs, Capacity(g, cs)))
  }

  lemma WholeSlots(g: Geometry, cs: seq<nat>)
    requires g.Valid()
    ensures Capacity(g, cs) % SZDIRE == 0 && g.Bcs() % SZDIRE == 0 && g.ss % SZDIRE == 0
  {
    var q := g.ss / SZDIRE;
    assert g.ss == SZDIRE * q;
    Multiple(SectorCount(g, cs), q);
    Multiple(g.csize, q);
  }

  lemma Multiple(n: nat, q: nat)
    ensures n * (SZDIRE * q) % SZDIRE == 0 && (SZDIRE * q) * n % SZDIRE == 0
  {
    assert n * (SZDIRE * q) == SZDIRE * (n * q);
  }

  /** A sector with an entry stored at `o`. */
  function WithEntry(sector: seq<byte>, o: nat, entry: Entry): (r: seq<byte>)
    requires o + SZDIRE <= |sector|
    ensures |r| == |sector|
    ensures forall k :: 0 <= k < |r| ==> r[k] == if o <= k < o + SZDIRE then entry[k - o] else sector[k]
  {
    sector[..o] + entry + sector[o + SZDIRE..]
  }

  /** One entry stored in the sector it belongs to changes its slot and no other. */
  lemma EntryStored(g: Geometry, d: Disk, cs: seq<nat>, i: nat, entry: Entry)
    requires g.Valid() && g.IsDisk(d) && IsLayout(g, cs) && SZDIRE * i < Capacity(g, cs)
    ensures var o, s := SZDIRE * i % g.ss, FileSector(g, cs, SZDIRE * i / g.ss);
            && o + SZDIRE <= g.ss && s < g.nsect && i < |SlotsOn(g, d, cs)|
            && SlotsOn(g, d[s := WithEntry(d[s], o, entry)], cs) == SlotsOn(g, d, cs)[i := entry]
  {
    var p, n := SZDIRE * i, Capacity(g, cs);
    WholeSlots(g, cs);
    FileByteAt(g, d, cs, p);
    InOneSector(i, g.ss);
    var s := FileSector(g, cs, p / g.ss);
    var e := d[s := WithEntry(d[s], p % g.ss, entry)];
    hide Capacity, SectorCount, FileSector, FileBytes, IsLayout, WithEntry;
    PartialWriteSplices(g, d, e, cs, n, p, entry);
    SlotsOfSplice(FileBytes(g, d, cs, n), i, entry);
  }

  lemma EntryFetched(g: Geometry, d: Disk, cs: seq<nat>, i: nat)
    requires g.Valid() && g.IsDisk(d) && IsLayout(g, cs) && SZDIRE * i < Capacity(g, cs)
    ensures var o, s := SZDIRE * i % g.ss, FileSector(g, cs, SZDIRE * i / g.ss);
            && o + SZDIRE <= g.ss && s < g.nsect && i < |SlotsOn(g, d, cs)|
            && d[s][o..o + SZDIRE] == SlotsOn(g, d, cs)[i]
  {
    WholeSlots(g, cs);
    FileByteAt(g, d, cs, SZDIRE * i);
    InOneSector(i, g.ss);
    var s, o := FileSector(g, cs, SZDIRE * i / g.ss), SZDIRE * i % g.ss;
    assert d[s] == WithEntry(d[s], o, d[s][o..o + SZDIRE]);
    EntryStored(g, d, cs, i, d[s][o..o + SZDIRE]);
    hide SlotsOn, WithEntry, Capacity, FileSector, IsLayout, Geometry.Valid;
    assert d[s := d[s]] == d;
  }

  lemma InOneSector(i: nat, ss: nat)
    requires ss > 0 && ss % SZDIRE == 0
    ensures SZDIRE * i % ss + SZDIRE <= ss && SZDIRE * i % ss % SZDIRE == 0
  {
    var q := ss / SZDIRE;
    var a, b := i / q, i % q;
    assert i == q * a + b;
    MulAssoc(SZDIRE, q, a);
    DivUnique(SZDIRE * i, ss, a, SZDIRE * b);
  }

  /** All sectors of the cluster are blank. */
  ghost predicate Blanked(g: Geometry, d: Disk, c: nat) {
    && ClustSect(g, c) + g.csize <= |d|
    && forall s :: ClustSect(g, c) <= s < ClustSect(g, c) + g.csize ==> d[s] == Zeros(g.ss)
  }

  /** A blank cluster more gives blank slots more. */
  lemma ClusterAdded(g: Geometry, d: Disk, e: Disk, cs: seq<nat>, c: nat)
    requires g.Valid() && g.IsDisk(d) && g.IsDisk(e) && IsLayout(g, cs) && IsLayout(g, cs + [c])
    requires forall s :: 0 <= s < g.nsect && Owns(g, cs, s) ==> d[s] == e[s]
    requires Blanked(g, e, c)
    ensures SlotsOn(g, e, cs + [c]) == SlotsOn(g, d, cs) + Dir.Blanks(g.Bcs() / SZDIRE)
  {
    var n, m := Capacity(g, cs), Capacity(g, cs + [c]);
    WholeSlots(g, cs);
    WholeSlots(g, cs + [c]);
    SameSectorsSameBytes(g, d, e, cs, n);
    LongerChain(g, e, cs, c, n);
    OneClusterMore(g, cs, c);
    forall i | n <= i < m ensures FileByte(g, e, cs + [c], i) == 0 { LastClusterByte(g, e, cs, c, i); }
    var a, b := FileBytes(g, d, cs, n), FileBytes(g, e, cs + [c], m);
    assert b[..n] == FileBytes(g, e, cs + [c], n);
    assert b == a + Zeros(SZDIRE * (g.Bcs() / SZDIRE));
    SlotsOfMore(a, g.Bcs() / SZDIRE);
  }

  lemma OneClusterMore(g: Geometry, cs: seq<nat>, c: nat)
    requires g.Valid()
    ensures Capacity(g, cs + [c]) == Capacity(g, cs) + g.Bcs()
  {
    assert |cs + [c]| == |cs| + 1;
    hide Geometry.Valid;
    MulDist(g.csize, |cs|, 1);
    Distribute(g.ss, |cs| * g.csize, g.csize);
    assert (|cs| + 1) * g.csize == |cs| * g.csize + g.csize;
  }

  lemma Distribute(m: nat, a: nat, b: nat)
    ensures (a + b) * m == a * m + m * b
  {
  }

  lemma LastClusterByte(g: Geometry, e: Disk, cs: seq<nat>, c: nat, i: nat)
    requires g.Valid() && g.IsDisk(e) && IsLayout(g, cs + [c]) && Capacity(g, cs) <= i < Capacity(g, cs + [c])
    requires Blanked(g, e, c)
    ensures FileByte(g, e, cs + [c], i) == 0
  {
    FileByteAt(g, e, cs + [c], i);
    FileSectorAt(g, cs + [c], i / g.ss);
    hide Capacity, SectorCount;
    SectorIndex(g, cs, i);
    ClusterIndex(g, cs, i / g.ss);
    ClusterIndex(g, cs + [c], i / g.ss);
    assert i / g.ss / g.csize == |cs|;
  }

  /** The window is cleared and written out as `sector`. */
  method BlankSector(fs: FileSystem, sector: nat)
    requires fs.Valid() && !fs.wflag && fs.g.FatEnd() <= sector < fs.g.nsect
    modifies fs`winsect, fs`wflag, fs`disk, fs.win
    ensures fs.Valid() && !fs.wflag && fs.winsect == sector && fs.win[..] == Zeros(fs.g.ss)
    ensures fs.Store() == old(fs.Store())[sector := Zeros(fs.g.ss)] && fs.Fat() == old(fs.Fat())
  {
    hide Table;
    AreaBounds(fs.g);
    EditElsewhere(fs.g, fs.Store(), sector, Zeros(fs.g.ss));
    forall i | 0 <= i < fs.win.Length { fs.win[i] := 0; }
    assert fs.win[..] == Zeros(fs.g.ss);
    fs.winsect, fs.wflag := sector, true;
    fs.SyncWindow();
  }

  /** The part of dir_next that fills a new cluster with zeros. */
  method BlankCluster(fs: FileSystem, c: nat)
    requires fs.Valid() && fs.g.InRange(c)
    modifies fs`winsect, fs`wflag, fs`disk, fs.win
    ensures fs.Valid() && fs.Fat() == old(fs.Fat()) && fs.winsect == ClustSect(fs.g, c)
    ensures Blanked(fs.g, fs.Store(), c)
    ensures forall s :: 0 <= s < fs.g.nsect && !(ClustSect(fs.g, c) <= s < ClustSect(fs.g, c) + fs.g.csize) ==>
              fs.Store()[s] == old(fs.Store())[s]
  {
    hide FileSystem.Valid, FileSystem.Store, Table, ClustSect;
    ClusterOfSector(fs.g, c, 0);
    ClusterOfSector(fs.g, c, fs.g.csize - 1);
    var base := ClustSect(fs.g, c);
    ghost var was := fs.Store();
    fs.SyncWindow();
    for n := 0 to fs.g.csize
      invariant fs.Valid() && !fs.wflag && fs.Fat() == old(fs.Fat()) && (n > 0 ==> fs.win[..] == Zeros(fs.g.ss))
      invariant forall s :: 0 <= s < fs.g.nsect ==>
          fs.Store()[s] == if base <= s < base + n then Zeros(fs.g.ss) else was[s]
    {
      BlankSector(fs, base + n);
    }
    Revisit(fs, base);
  }

  /** The window shows the first of the sectors again: all of them are blank. */
  method Revisit(fs: FileSystem, base: nat)
    requires fs.Valid() && !fs.wflag && base < fs.g.nsect && fs.Store()[base] == Zeros(fs.g.ss)
    requires fs.win[..] == Zeros(fs.g.ss)
    modifies fs`winsect
    ensures fs.Valid() && fs.Store() == old(fs.Store()) && fs.winsect == base
  {
    fs.winsect := base;
  }

  predicate StartsSector(g: Geometry, p: nat)
    requires g.ss > 0
  {
    p % g.ss == 0
  }

  predicate StartsCluster(g: Geometry, p: nat)
    requires g.ss > 0 && g.csize > 0
  {
    StartsSector(g, p) && p / g.ss % g.csize == 0
  }

  /** Where the slot behind the one at `p` is: in the same sector, in the next one, or at
      the start of the next cluster, if there is one. */
  lemma SlotBehind(g: Geometry, cs: seq<nat>, p: nat)
    requires g.Valid() && IsLayout(g, cs) && p % SZDIRE == 0 && p < Capacity(g, cs)
    ensures p + SZDIRE <= Capacity(g, cs) && g.ClusterIx(p) < |cs|
    ensures g.ss > 0 && g.csize > 0
    ensures !StartsSector(g, p + SZDIRE) ==>
              p + SZDIRE < Capacity(g, cs) && (p + SZDIRE) / g.ss == p / g.ss
                  && g.ClusterIx(p + SZDIRE) == g.ClusterIx(p)
    ensures StartsSector(g, p + SZDIRE) && !StartsCluster(g, p + SZDIRE) ==>
              && p + SZDIRE < Capacity(g, cs) && g.ClusterIx(p + SZDIRE) == g.ClusterIx(p)
              && FileSector(g, cs, (p + SZDIRE) / g.ss) == FileSector(g, cs, p / g.ss) + 1
    ensures StartsCluster(g, p + SZDIRE) ==>
              && g.ClusterIx(p + SZDIRE) == g.ClusterIx(p) + 1
              && (p + SZDIRE == Capacity(g, cs) <==> g.ClusterIx(p) + 1 == |cs|)
              && (g.ClusterIx(p) + 1 < |cs| ==>
                    FileSector(g, cs, (p + SZDIRE) / g.ss) == ClustSect(g, cs[g.ClusterIx(p) + 1]))
  {
    hide Capacity, FileSector, IsLayout, Geometry.ClusterIx;
    var q := p + SZDIRE;
    WholeSlots(g, cs);
    Aligned(p, g.ss);
    InsideSlot(g, p);
    HasPosition(g, cs, p);
    NotBeyond(p, Capacity(g, cs));
    HasPosition(g, cs, q);
    if q % g.ss != 0 {
      StepInside(g, cs, q);
    } else if q / g.ss % g.csize != 0 {
      StepInside(g, cs, q);
      SectorOfCluster(g, cs, p);
      SectorOfCluster(g, cs, q);
      NextInCluster(p / g.ss, g.csize);
    } else {
      NextCluster(g, cs, q);
      if q < Capacity(g, cs) { SectorOfCluster(g, cs, q); }
    }
  }

  lemma SameStart(g: Geometry, cs: seq<nat>, ds: seq<nat>)
    requires |cs| <= |ds|
    ensures Capacity(g, cs) <= Capacity(g, ds)
  {
    MulMono(g.csize, |cs|, |ds|);
    MulMono(g.ss, |cs| * g.csize, |ds| * g.csize);
  }

  /** The greatest size of a directory is a multiple of that of a cluster. */
  lemma RoomForCluster(g: Geometry, cs: seq<nat>)
    requires g.Valid() && Capacity(g, cs) < SZDIRE * Dir.MAX_SLOTS
    ensures Capacity(g, cs) + g.Bcs() <= SZDIRE * Dir.MAX_SLOTS
  {
    var m := Clusters(g.ss, g.csize);
    MulAssoc(g.ss, g.csize, |cs|);
    if |cs| >= m { MulMono(g.Bcs(), m, |cs|); }
    MulDist(g.Bcs(), |cs|, 1);
    MulMono(g.Bcs(), |cs| + 1, m);
  }

  lemma Clusters(ss: nat, csize: nat) returns (m: nat)
    requires ss in {512, 1024, 2048, 4096} && csize in {1, 2, 4, 8, 16, 32, 64, 128}
    ensures ss * csize * m == SZDIRE * Dir.MAX_SLOTS
  {
    var a := if ss == 512 then 8 else if ss == 1024 then 4 else if ss == 2048 then 2 else 1;
    var b := if csize == 1 then 128 else if csize == 2 then 64 else if csize == 4 then 32 else if csize == 8 then 16
             else if csize == 16 then 8 else if csize == 32 then 4 else if csize == 64 then 2 else 1;
    assert ss * a == 4096 && csize * b == 128;
    m := a * b * 4;
    Regroup(ss, csize, a, b);
  }

  lemma Regroup(s: nat, c: nat, a: nat, b: nat)
    ensures s * c * (a * b * 4) == (s * a) * (c * b) * 4
  {
  }

  /** Slots and byte offsets. */
  lemma SlotNumbers(g: Geometry, cs: seq<nat>, p: nat)
    requires g.Valid() && p % SZDIRE == 0 && p < Capacity(g, cs)
    ensures (p + SZDIRE) / SZDIRE == p / SZDIRE + 1 && (p + SZDIRE) % SZDIRE == 0
    ensures p + SZDIRE == Capacity(g, cs) <==> p / SZDIRE + 1 == Capacity(g, cs) / SZDIRE
    ensures p + SZDIRE >= SZDIRE * Dir.MAX_SLOTS <==> p / SZDIRE + 1 >= Dir.MAX_SLOTS
    ensures g.Bcs() / SZDIRE > 0
  {
    WholeSlots(g, cs);
    MulMono(g.ss, 1, g.csize);
  }

  lemma NotBeyond(p: nat, n: nat)
    requires p % SZDIRE == 0 && n % SZDIRE == 0 && p < n
    ensures p + SZDIRE <= n
  {
  }

  /** A slot does not straddle sectors. */
  lemma Aligned(p: nat, ss: nat)
    requires ss > 0 && ss % SZDIRE == 0 && p % SZDIRE == 0
    ensures (p + SZDIRE - 1) / ss == p / ss
    ensures (p + SZDIRE) / ss == if (p + SZDIRE) % ss == 0 then p / ss + 1 else p / ss
  {
    InOneSector(p / SZDIRE, ss);
    var q, r := p / ss, p % ss;
    assert p == ss * q + r;
    DivUnique(p + SZDIRE - 1, ss, q, r + SZDIRE - 1);
    if r + SZDIRE == ss {
      MulDist(ss, q, 1);
      DivUnique(p + SZDIRE, ss, q + 1, 0);
    } else {
      DivUnique(p + SZDIRE, ss, q, r + SZDIRE);
    }
  }

  lemma InsideSlot(g: Geometry, p: nat)
    requires g.Valid() && p % SZDIRE == 0
    ensures g.ClusterIx(p + SZDIRE - 1) == g.ClusterIx(p)
  {
    WholeSlots(g, []);
    Aligned(p, g.ss);
  }

  lemma NextInCluster(j: nat, csize: nat)
    requires csize > 0 && (j + 1) % csize != 0
    ensures (j + 1) / csize == j / csize && (j + 1) % csize == j % csize + 1
  {
    var q, r := j / csize, j % csize;
    assert j == csize * q + r;
    if r + 1 == csize {
      MulDist(csize, q, 1);
      DivUnique(j + 1, csize, q + 1, 0);
    } else {
      DivUnique(j + 1, csize, q, r + 1);
    }
  }

  /** An entry of a data sector is overwritten through the window. */
  method StoreEntry(fs: FileSystem, sector: nat, o: nat, e: Entry)
    requires fs.Valid() && fs.g.FatEnd() <= sector < fs.g.nsect && o + SZDIRE <= fs.g.ss
    modifies fs`disk, fs`wflag, fs`winsect, fs.win
    ensures fs.Valid() && fs.Fat() == old(fs.Fat()) && fs.winsect == sector
    ensures fs.Store() == old(fs.Store())[sector := WithEntry(old(fs.Store())[sector], o, e)]
  {
    hide FatVolume.Table;
    ghost var was, data := fs.Store(), WithEntry(fs.Store()[sector], o, e);
    fs.MoveWindow(sector);
    AreaBounds(fs.g);
    EditElsewhere(fs.g, was, sector, data);
    assert fs.disk[sector := data] == was[sector := data];
    forall i | o <= i < o + SZDIRE { fs.win[i] := e[i - o]; }
    assert fs.win[..] == data;
    fs.wflag := true;
  }

  class SlotTable {
    const fs: FileSystem
    const sclust: nat
    var dptr: nat
    var sect: nat
    var clust: nat
    ghost var chain: seq<nat>

    ghost predicate Core()
      reads this, fs, fs.win
      ensures Core() ==> fs.Valid() && IsLayout(fs.g, chain) && chain != []
    {
      && fs.Valid() && chain != [] && sclust == chain[0]
      && Chains.IsChain(fs.Fat(), chain) && Chains.NoOnes(fs.Fat(), fs.g.nFatent) && IsLayout(fs.g, chain)
      && Capacity(fs.g, chain) <= SZDIRE * Dir.MAX_SLOTS
    }

    ghost predicate At()
      reads this
    {
      var k := fs.g.ClusterIx(dptr);
      k < |chain| && clust == chain[k] && fs.g.ss > 0 && fs.g.csize > 0
          && sect == FileSector(fs.g, chain, dptr / fs.g.ss)
    }

    /** The current entry is where `dptr` says, or the end has been reached. */
    ghost predicate Ready()
      reads this, fs, fs.win
      ensures Ready() ==> Core()
    {
      && Core() && dptr % SZDIRE == 0 && dptr < Capacity(fs.g, chain)
      && (sect != 0 ==> At())
    }

    ghost function Slots(): (s: seq<Entry>)
      reads this, fs, fs.win
      requires Core()
      ensures |s| == Capacity(fs.g, chain) / SZDIRE
    {
      SlotsOn(fs.g, fs.Store(), chain)
    }

    ghost function Cursor(): Dir.Cursor
      reads this, fs, fs.win
      requires Core()
    {
      Dir.Cursor(Slots(), dptr / SZDIRE, sect == 0, Chains.FreeClusters(fs.Fat()))
    }

    /** An opened directory, at its first entry (dir_sdi with offset 0). */
    constructor Open(fs: FileSystem, sclust: nat, ghost chain: seq<nat>)
      requires fs.Valid() && chain != [] && sclust == chain[0] && Chains.IsChain(fs.Fat(), chain)
      requires Chains.NoOnes(fs.Fat(), fs.g.nFatent) && IsLayout(fs.g, chain)
          && Capacity(fs.g, chain) <= SZDIRE * Dir.MAX_SLOTS
      ensures Ready() && this.fs == fs && this.chain == chain
      ensures Cursor() == Dir.Cursor(SlotsOn(fs.g, fs.Store(), chain), 0, false, Chains.FreeClusters(fs.Fat()))
    {
      hide Capacity, SectorCount, FileSector, IsLayout, Geometry.Valid, Geometry.IsDisk, Chains.IsChain, Chains.NoOnes;
      BcsPositive(fs.g);
      ClusterEnds(fs.g, chain, 0);
      StartOfFile(fs.g);
      SectorOfCluster(fs.g, chain, 0);
      SectorOfPosition(fs.g, chain, 0);
      this.fs, this.sclust, this.chain := fs, sclust, chain;
      dptr, sect, clust := 0, ClustSect(fs.g, sclust), sclust;
    }

    /** dir_next.  What it does to the slots is what `NextOf` says of a sequence of them. */
    method Next(stretch: bool) returns (res: Dir.Res)
      requires Ready()
      modifies this`dptr, this`sect, this`clust, this`chain, fs, fs.win
      ensures Core() && (res != Dir.Denied ==> Ready())
      ensures (Cursor(), res) == Dir.NextOf(old(Cursor()), fs.g.Bcs() / SZDIRE, stretch)
    {
      hide FileSystem.Valid, FileSystem.Store, Capacity, SectorCount, FileSector, IsLayout, Chains.FreeClusters, Core,
          Slots,
           Geometry.ClusterIx, Geometry.Valid, Geometry.Bcs, StartsSector, StartsCluster;
      SlotBehind(fs.g, chain, dptr);
      SlotNumbers(fs.g, chain, dptr);
      hide At;
      var ofs := dptr + SZDIRE;
      if sect == 0 || ofs >= SZDIRE * Dir.MAX_SLOTS { return Dir.NoFile; }
      if StartsCluster(fs.g, ofs) {
        res := IntoCluster(stretch);
      } else {
        InsideCluster();
        res := Dir.Ok;
      }
    }

    /** The next entry is in the same cluster. */
    method InsideCluster()
      requires Ready() && sect != 0 && fs.g.ss > 0 && fs.g.csize > 0 && !StartsCluster(fs.g, dptr + SZDIRE)
      modifies this`dptr, this`sect, this`clust
      ensures Ready() && Cursor() == old(Cursor()).(at := old(Cursor()).at + 1) && Cursor().at < |Slots()|
    {
      hide FileSystem.Valid, FileSystem.Store, Capacity, SectorCount, FileSector, IsLayout, Chains.FreeClusters, Core,
          Slots,
           Geometry.ClusterIx, Geometry.Valid, Geometry.Bcs, StartsSector, StartsCluster;
      SlotBehind(fs.g, chain, dptr);
      SlotNumbers(fs.g, chain, dptr);
      SectorOfPosition(fs.g, chain, dptr + SZDIRE);
      MoveTo(dptr + SZDIRE, if StartsSector(fs.g, dptr + SZDIRE) then sect + 1 else sect, clust);
    }

    /** The next entry starts a cluster. */
    method IntoCluster(stretch: bool) returns (res: Dir.Res)
      requires Ready() && sect != 0 && fs.g.ss > 0 && fs.g.csize > 0 && StartsCluster(fs.g, dptr + SZDIRE)
      requires dptr + SZDIRE < SZDIRE * Dir.MAX_SLOTS
      modifies this`dptr, this`sect, this`clust, this`chain, fs, fs.win
      ensures Core() && (res != Dir.Denied ==> Ready())
      ensures (Cursor(), res) == Dir.NextOf(old(Cursor()), fs.g.Bcs() / SZDIRE, stretch)
    {
      hide FileSystem.Valid, FileSystem.Store, Capacity, SectorCount, FileSector, IsLayout, Chains.FreeClusters, Core,
          Slots,
           Geometry.ClusterIx, Geometry.Valid, Geometry.Bcs, StartsSector, StartsCluster;
      SlotBehind(fs.g, chain, dptr);
      SlotNumbers(fs.g, chain, dptr);
      var ofs := dptr + SZDIRE;
      MoveTo(dptr, sect + 1, clust);
      var ok;
      ok, res := NextCluster(fs.g.ClusterIx(dptr), stretch);
      if ok {
        SameStart(fs.g, old(chain), chain);
        SlotBehind(fs.g, chain, dptr);
        SectorOfPosition(fs.g, chain, ofs);
        MoveTo(ofs, sect, clust);
      }
    }

    method MoveTo(p: nat, s: nat, c: nat)
      requires Core()
      modifies this`dptr, this`sect, this`clust
      ensures Core() && Slots() == old(Slots()) && dptr == p && sect == s && clust == c
      ensures fs.Fat() == old(fs.Fat())
    {
      dptr, sect, clust := p, s, c;
    }

    /** The cluster behind number `k`, found or added. */
    method NextCluster(ghost k: nat, stretch: bool) returns (ok: bool, res: Dir.Res)
      requires Core() && k < |chain| && clust == chain[k] && sect != 0
      requires k + 1 == |chain| ==> Capacity(fs.g, chain) < SZDIRE * Dir.MAX_SLOTS
      modifies this`dptr, this`sect, this`clust, this`chain, fs, fs.win
      ensures Core() && dptr == old(dptr) && ok == (res == Dir.Ok)
      ensures res == (if k + 1 < |old(chain)| then Dir.Ok else if !stretch then Dir.NoFile
                      else if old(Chains.FreeClusters(fs.Fat())) == 0 then Dir.Denied else Dir.Ok)
      ensures if ok && k + 1 == |old(chain)|
              then
                && |chain| == k + 2 && chain[..k + 1] == old(chain)
                && Slots() == old(Slots()) + Dir.Blanks(fs.g.Bcs() / SZDIRE)
                && Chains.FreeClusters(fs.Fat()) + 1 == old(Chains.FreeClusters(fs.Fat()))
              else
                && chain == old(chain) && Slots() == old(Slots())
                && Chains.FreeClusters(fs.Fat()) == old(Chains.FreeClusters(fs.Fat()))
      ensures ok ==> k + 1 < |chain| && clust == chain[k + 1] && sect == ClustSect(fs.g, clust)
      ensures !ok ==> clust == old(clust) && sect == if res == Dir.NoFile then 0 else old(sect)
    {
      hide FileSystem.Valid, FileSystem.Store, Capacity, SectorCount, IsLayout, Chains.FreeClusters, Core, Slots,
          Geometry.Valid, Geometry.Bcs;
      ok, res := true, Dir.Ok;
      var c := Follow(k);
      if c >= fs.g.nFatent {
        if !stretch {
          MoveTo(dptr, 0, clust);
          return false, Dir.NoFile;
        }
        RoomForCluster(fs.g, chain);
        c := Stretch();
        if c == 0 { return false, Dir.Denied; }
      }
      MoveTo(dptr, ClustSect(fs.g, c), c);
    }

    /** get_fat of cluster number `k`. */
    method Follow(ghost k: nat) returns (c: nat)
      requires Core() && k < |chain| && clust == chain[k]
      modifies fs`disk, fs`wflag, fs`winsect, fs.win
      ensures Core() && Slots() == old(Slots()) && fs.Fat() == old(fs.Fat())
      ensures if k + 1 < |chain| then c == chain[k + 1] < fs.g.nFatent else c >= fs.g.nFatent
    {
      hide FileSystem.Valid, FileSystem.Store, Capacity, IsLayout, Chains.NoOnes, SlotsOn, FatVolume.Table;
      ChainBounds(fs.g, fs.Fat(), chain);
      c := fs.GetFat(clust);
    }

    /** move_window to the current entry, which is then in the window. */
    method Get() returns (e: Entry)
      requires Ready() && sect != 0
      modifies fs`disk, fs`wflag, fs`winsect, fs.win
      ensures Ready() && Cursor() == old(Cursor()) && dptr / SZDIRE < |Slots()| && e == Slots()[dptr / SZDIRE]
      ensures fs.winsect == sect && dptr % fs.g.ss + SZDIRE <= fs.g.ss
      ensures fs.g.FatEnd() <= sect < fs.g.nsect
    {
      hide FileSystem.Valid, FileSystem.Store, Capacity, SectorCount, FileSector, IsLayout, Chains.NoOnes, SlotsOn,
          FatVolume.Table, Geometry.Valid;
      SectorOfPosition(fs.g, chain, dptr);
      EntryFetched(fs.g, fs.Store(), chain, dptr / SZDIRE);
      fs.MoveWindow(sect);
      e := fs.win[dptr % fs.g.ss..dptr % fs.g.ss + SZDIRE];
    }

    /** The current entry is overwritten in the window. */
    method Put(e: Entry)
      requires Ready() && sect != 0
      modifies fs`disk, fs`wflag, fs`winsect, fs.win
      ensures Ready() && old(Cursor()).at < |old(Cursor()).slots|
      ensures Cursor() == old(Cursor()).(slots := old(Cursor()).slots[old(Cursor()).at := e])
    {
      hide FileSystem.Valid, FileSystem.Store, Capacity, SectorCount, FileSector, IsLayout, Chains.NoOnes, SlotsOn,
          FatVolume.Table, Geometry.Valid;
      SectorOfPosition(fs.g, chain, dptr);
      EntryStored(fs.g, fs.Store(), chain, dptr / SZDIRE, e);
      StoreEntry(fs, sect, dptr % fs.g.ss, e);
    }

    /** create_chain behind the last cluster, and the new one filled with zeros. */
    method Stretch() returns (c: nat)
      requires Core() && clust == chain[|chain| - 1] && Capacity(fs.g, chain) + fs.g.Bcs() <= SZDIRE * Dir.MAX_SLOTS
      modifies this`chain, fs, fs.win
      ensures Core() && (c == 0 <==> old(Chains.FreeClusters(fs.Fat())) == 0)
      ensures c == 0 ==> chain == old(chain) && Slots() == old(Slots()) && fs.Fat() == old(fs.Fat())
      ensures c != 0 ==>
                && chain == old(chain) + [c]
                && Slots() == old(Slots()) + Dir.Blanks(fs.g.Bcs() / SZDIRE)
                && Chains.FreeClusters(fs.Fat()) + 1 == old(Chains.FreeClusters(fs.Fat()))
    {
      hide FileSystem.Valid, FileSystem.Store, FatVolume.Table, TableEdit, Chains.Create, Chains.IsChain,
          Chains.NoOnes, Capacity, IsLayout, SlotsOn, Owns,
           Chains.FreeClusters, Chains.Full, Blanked;
      ghost var before, store := fs.State(), fs.Store();
      EocFits(fs.g);
      ChainBounds(fs.g, before.fat, chain);
      Chains.FollowChain(before, chain, |chain| - 1, fs.Eoc());
      LastIsEnd(before.fat, chain);
      Chains.CreateTakesOne(before, clust, fs.Eoc());
      c := fs.CreateChain(clust);
      if c == 0 {
        Chains.FullHasNone(before.fat);
      } else {
        Stretched(fs.g, before.fat, fs.Fat(), store, fs.Store(), chain, c);
        ghost var grown := fs.Store();
        BlankCluster(fs, c);
        BlankedBehind(fs.g, store, grown, fs.Store(), chain, c);
        OneClusterMore(fs.g, chain, c);
        chain := chain + [c];
      }
    }
  }

  lemma LastIsEnd(fat: seq<nat>, cs: seq<nat>)
    requires Chains.IsChain(fat, cs)
    ensures Chains.InRange(fat, cs[|cs| - 1]) && fat[cs[|cs| - 1]] >= |fat|
  {
  }

  lemma Stretched(g: Geometry, fat: seq<nat>, gat: seq<nat>, d: Disk, e: Disk, cs: seq<nat>, c: nat)
    requires g.Valid() && g.IsDisk(d) && g.IsDisk(e) && |fat| == g.nFatent
    requires Chains.IsChain(fat, cs) && Chains.Extends(fat, gat, cs, c)
    ensures IsLayout(g, cs + [c]) && g.InRange(c) && c !in cs && Chains.IsChain(gat, cs + [c])
        && Chains.NoOnes(gat, |gat|)
    ensures (cs + [c])[0] == cs[0]
  {
    ChainBounds(g, gat, cs + [c]);
    if c in cs { Chains.ChainInUse(fat, cs, c); }
  }

  /** After the table was edited and the new cluster cleared, the slots are the old ones and blank ones. */
  lemma BlankedBehind(g: Geometry, d: Disk, e: Disk, f: Disk, cs: seq<nat>, c: nat)
    requires g.Valid() && g.IsDisk(d) && g.IsDisk(e) && g.IsDisk(f) && TableEdit(g, d, e)
    requires IsLayout(g, cs) && IsLayout(g, cs + [c]) && c !in cs && g.InRange(c) && Blanked(g, f, c)
    requires forall s :: 0 <= s < g.nsect && !(ClustSect(g, c) <= s < ClustSect(g, c) + g.csize) ==> f[s] == e[s]
    ensures SlotsOn(g, f, cs + [c]) == SlotsOn(g, d, cs) + Dir.Blanks(g.Bcs() / SZDIRE)
  {
    forall s | 0 <= s < g.nsect && Owns(g, cs, s) ensures d[s] == f[s] {
      OwnedIsData(g, cs, s);
      if ClustSect(g, c) <= s < ClustSect(g, c) + g.csize { ClusterOfSector(g, c, s - ClustSect(g, c)); }
    }
    hide IsLayout, SlotsOn, Owns, Blanked, TableEdit;
    ClusterAdded(g, d, f, cs, c);
  }
}
