/** The allocation hints over whole runs: what the next mount finds in the FSINFO sector is what this one
    knew at its last sync (create_chain, remove_chain, f_getfree, sync_fs and find_volume of ff.c). */
module FatHints {
  import opened Bytes
  import opened FatEntries
  import opened FatVolume
  import opened FatFs
  import opened FileSteps
  import Chains = FatChains
  import FsInfo

  datatype Op = Create(clst: nat) | Remove(clst: nat, pclst: nat) | CountFree | Sync

  /** What mounting makes of a sector: the two hints, unknown if it is no FSINFO sector. */
  ghost predicate Gives(sector: seq<byte>, free: nat, last: nat)
    requires |sector| >= 512
  {
    match FsInfo.Read(sector)
    case Hints(f, l) => f == free && l == last
    case NoHints => free == MAX_DWORD && last == MAX_DWORD
  }

  /** Hints are kept, in a sector of their own before the table. */
  ghost predicate Hinted(fs: FileSystem)
    reads fs
  {
    fs.g.Valid() && !fs.fsiDisabled && fs.g.volbase + 1 < fs.g.fatbase
  }

  /** The hints are due to be written, or the sector has them. */
  ghost predicate Kept(fs: FileSystem)
    reads fs, fs.win
    requires fs.Valid() && Hinted(fs)
  {
    AreaBounds(fs.g);
    fs.fsiDirty || Gives(fs.Store()[fs.g.volbase + 1], fs.freeClst, fs.lastClst)
  }

  method Serve(fs: FileSystem, op: Op)
    requires fs.Valid() && Hinted(fs) && Kept(fs) && (op.Create? ==> op.clst <= MAX_DWORD)
    modifies fs, fs.win
    ensures fs.Valid() && Kept(fs)
    ensures op.Create? ==> fs.State() == Chains.Create(old(fs.State()), op.clst, fs.Eoc()).0
    ensures op.Remove? ==> fs.State() == Chains.Remove(old(fs.State()), op.clst, op.pclst, fs.Eoc()).0
    ensures op.CountFree? || op.Sync? ==> fs.Fat() == old(fs.Fat()) && fs.lastClst == old(fs.lastClst)
    ensures op.Sync? ==> fs.freeClst == old(fs.freeClst)
    ensures op.Sync? ==> !fs.fsiDirty && fs.disk == fs.Store()
  {
    hide FileSystem.Valid, FileSystem.Store, Table, FsInfo.Read, FsInfo.Build, Chains.Create, Chains.Remove;
    assert fs.g.csize > 0 && fs.g.volbase + 1 < fs.g.fatbase;
    AreaBounds(fs.g);
    match op {
      case Create(clst) =>
        ghost var before := fs.State();
        EocFits(fs.g);
        var _ := fs.CreateChain(clst);
        if fs.Fat() == before.fat { Chains.SameTableSameState(before, clst, fs.Eoc()); }
      case Remove(clst, pclst) =>
        var _ := fs.RemoveChain(clst, pclst);
      case CountFree =>
        var _, _ := fs.GetFree();
      case Sync =>
        HintsFit(fs);
        FsInfo.HintsRoundTrip(fs.g.ss, fs.freeClst, fs.lastClst);
        ghost var was := fs.Store();
        fs.SyncFs();
        if fs.Store() != was {
          EditElsewhere(fs.g, was, fs.g.volbase + 1, FsInfo.Build(fs.g.ss, fs.freeClst, fs.lastClst));
        }
    }
  }

  lemma HintsFit(fs: FileSystem)
    requires fs.Valid()
    ensures fs.freeClst <= MAX_DWORD && fs.lastClst <= MAX_DWORD
  {
  }

  method ServeAll(fs: FileSystem, ops: seq<Op>)
    requires fs.Valid() && Hinted(fs) && Kept(fs)
    requires forall i :: 0 <= i < |ops| && ops[i].Create? ==> ops[i].clst <= MAX_DWORD
    modifies fs, fs.win
    ensures fs.Valid() && Kept(fs)
    ensures ops != [] && ops[|ops| - 1].Sync? ==> !fs.fsiDirty && fs.disk == fs.Store()
  {
    hide FileSystem.Valid, FileSystem.Store, Kept;
    for i := 0 to |ops|
      invariant fs.Valid() && Kept(fs)
      invariant i > 0 && ops[i - 1].Sync? ==> !fs.fsiDirty && fs.disk == fs.Store()
    {
      Serve(fs, ops[i]);
    }
  }

  /** A mount, any mix of allocating, freeing, counting and syncing, a sync, and a mount of what is then on the
      disk: it knows the hints the first one knew. */
  method SyncedAndRemounted(g: Geometry, d: Disk, ops: seq<Op>) returns (fs: FileSystem, again: FileSystem)
    requires g.Valid() && g.IsDisk(d) && g.t == Fat32 && g.volbase + 1 < g.fatbase
    requires forall i :: 0 <= i < |ops| && ops[i].Create? ==> ops[i].clst <= MAX_DWORD
    ensures fs.Valid() && again.Valid() && again.g == fs.g == g && again.Store() == fs.Store()
    ensures again.freeClst == fs.freeClst && again.lastClst == fs.lastClst
  {
    hide FileSystem.Valid, FileSystem.Store, FsInfo.Read, Geometry.Valid, Geometry.IsDisk;
    fs := new FileSystem.Mount(g, d, true);
    fs.LoadHints();
    ServeAll(fs, ops + [Sync]);
    again := new FileSystem.Mount(g, fs.disk, true);
    again.LoadHints();
  }
}
