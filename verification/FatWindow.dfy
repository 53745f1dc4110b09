/** The sector window over whole runs: whatever mix of moves, edits and syncs, it is
    as if every edit had gone straight to all copies on the disk (ff.c). */
module FatWindow {
  import opened Arith
  import opened Bytes
  import opened FatEntries
  import opened FatVolume
  import FatFs
  import FsInfo

  datatype Op = Load(sector: nat) | Edit(o: nat, b: byte) | Sync | SyncAll

  /** The same volume without a cache: the sectors, the one looked at, and the hints to be written. */
  datatype Direct = Direct(d: Disk, at: nat, due: bool, free: nat, last: nat)

  ghost predicate Fits(g: Geometry, s: Direct) {
    g.Valid() && g.IsDisk(s.d)
  }

  /** Sectors that may be edited: any that has been loaded, except in the second copy of the table. */
  predicate Editable(g: Geometry, at: nat, o: nat) { at < g.nsect && !g.InMirror(at) && o < g.ss }

  ghost function Step(g: Geometry, s: Direct, op: Op): (r: Direct)
    requires Fits(g, s)
    ensures Fits(g, r)
  {
    AreaBounds(g);
    match op
    case Load(n) => if n < g.nsect then s.(at := n) else s
    case Edit(o, b) => if Editable(g, s.at, o) then s.(d := WriteThrough(g, s.d, s.at, s.d[s.at][o := b])) else s
    case Sync => s
    case SyncAll =>
      if s.due then Direct(s.d[g.volbase + 1 := FsInfo.Build(g.ss, s.free, s.last)], g.volbase + 1, false, s.free,
          s.last)
      else s
  }

  ghost function Run(g: Geometry, s: Direct, ops: seq<Op>): (r: Direct)
    requires Fits(g, s)
    ensures Fits(g, r)
    decreases |ops|
  {
    if ops == [] then s else Step(g, Run(g, s, ops[..|ops| - 1]), ops[|ops| - 1])
  }

  /** The volume a window stands for. */
  ghost function Seen(fs: FatFs.FileSystem): (s: Direct)
    reads fs, fs.win
    requires fs.Valid()
    ensures Fits(fs.g, s)
  {
    Direct(fs.Store(), fs.winsect, fs.fsiDirty && !fs.fsiDisabled, fs.freeClst, fs.lastClst)
  }

  method Serve(fs: FatFs.FileSystem, op: Op) returns (shown: seq<byte>)
    requires fs.Valid()
    modifies fs, fs.win
    ensures fs.Valid() && Seen(fs) == Step(fs.g, old(Seen(fs)), op)
    ensures op.Load? && op.sector < fs.g.nsect ==> shown == old(fs.Store())[op.sector]
    ensures op.Sync? || op.SyncAll? ==> fs.disk == fs.Store()
  {
    hide FatFs.FileSystem.Store, WriteThrough, FsInfo.Build;
    shown := [];
    match op {
      case Load(n) =>
        if n < fs.g.nsect {
          fs.MoveWindow(n);
          shown := fs.win[..];
        }
      case Edit(o, b) =>
        if Editable(fs.g, fs.winsect, o) { fs.Poke(o, b); }
      case Sync => fs.SyncWindow();
      case SyncAll => fs.SyncFs();
    }
  }

  /** Any run: what a load shows is the sector as all edits before have left it, and
      when the run ends with a sync, the disk itself is in that state. */
  method ServeAll(fs: FatFs.FileSystem, ops: seq<Op>) returns (shown: seq<seq<byte>>)
    requires fs.Valid()
    modifies fs, fs.win
    ensures fs.Valid() && Seen(fs) == Run(fs.g, old(Seen(fs)), ops)
    ensures |shown| == |ops|
    ensures forall i :: 0 <= i < |ops| && ops[i].Load? && ops[i].sector < fs.g.nsect ==>
              shown[i] == Run(fs.g, old(Seen(fs)), ops[..i]).d[ops[i].sector]
    ensures |ops| > 0 && (ops[|ops| - 1].Sync? || ops[|ops| - 1].SyncAll?) ==> fs.disk == fs.Store()
    ensures old(Mirrored(fs.g, fs.Store()) && Apart(fs.g, Seen(fs))) ==> Mirrored(fs.g, fs.Store())
  {
    hide FatFs.FileSystem.Store, Step, Mirrored;
    shown := [];
    for i := 0 to |ops|
      invariant fs.Valid() && Seen(fs) == Run(fs.g, old(Seen(fs)), ops[..i])
      invariant |shown| == i
      invariant forall k :: 0 <= k < i && ops[k].Load? && ops[k].sector < fs.g.nsect ==>
                  shown[k] == Run(fs.g, old(Seen(fs)), ops[..k]).d[ops[k].sector]
      invariant i > 0 && (ops[i - 1].Sync? || ops[i - 1].SyncAll?) ==> fs.disk == fs.Store()
    {
      var bytes := Serve(fs, ops[i]);
      shown := shown + [bytes];
      assert ops[..i + 1][..i] == ops[..i];
    }
    assert ops[..|ops|] == ops;
    RunKeepsMirror(fs.g, old(Seen(fs)), ops);
  }

  /** No allocation hints are due, or the sector they go to lies before the table. */
  ghost predicate Apart(g: Geometry, s: Direct) { s.due ==> g.volbase + 1 < g.fatbase }

  /** The copies of the table stay equal. */
  lemma {:induction false} RunKeepsMirror(g: Geometry, s: Direct, ops: seq<Op>)
    requires Fits(g, s)
    ensures Apart(g, s) ==> Apart(g, Run(g, s, ops))
    ensures Apart(g, s) && Mirrored(g, s.d) ==> Mirrored(g, Run(g, s, ops).d)
    decreases |ops|
  {
    hide Mirrored, WriteThrough;
    if ops != [] {
      RunKeepsMirror(g, s, ops[..|ops| - 1]);
      if Apart(g, s) && Mirrored(g, s.d) { StepKeepsMirror(g, Run(g, s, ops[..|ops| - 1]), ops[|ops| - 1]); }
    }
  }

  lemma StepKeepsMirror(g: Geometry, s: Direct, op: Op)
    requires Fits(g, s) && Mirrored(g, s.d) && Apart(g, s)
    ensures Mirrored(g, Step(g, s, op).d)
  {
    hide Mirrored, WriteThrough;
    AreaBounds(g);
    match op {
      case Edit(o, b) =>
        if Editable(g, s.at, o) { WriteThroughKeepsMirror(g, s.d, s.at, s.d[s.at][o := b]); }
      case SyncAll =>
        if s.due {
          BeforeTheTable(g, s.d, g.volbase + 1, FsInfo.Build(g.ss, s.free, s.last));
          WriteThroughKeepsMirror(g, s.d, g.volbase + 1, FsInfo.Build(g.ss, s.free, s.last));
        }
      case _ =>
    }
  }

  lemma BeforeTheTable(g: Geometry, d: Disk, n: nat, data: seq<byte>)
    requires g.Valid() && g.IsDisk(d) && n < g.fatbase && n < g.nsect && |data| == g.ss
    ensures WriteThrough(g, d, n, data) == d[n := data]
  {
  }

  /** Writing the allocation hints leaves the table alone exactly if it does not begin
      in their sector, right behind the boot sector; there clusters 2 to 120 become free. */
  lemma HintsOnTheTable(g: Geometry, d: Disk, free: nat, last: nat)
    requires g.Valid() && g.IsDisk(d) && g.t == Fat32 && free <= MAX_DWORD && last <= MAX_DWORD
    ensures g.volbase + 1 <= g.fatbase && g.volbase + 1 < g.nsect
    ensures var e := d[g.volbase + 1 := FsInfo.Build(g.ss, free, last)];
            if g.volbase + 1 < g.fatbase then Table(g, e) == Table(g, d)
            else forall c :: 2 <= c <= 120 && c < g.nFatent ==> Table(g, e)[c] == 0
  {
    AreaBounds(g);
    var sector := FsInfo.Build(g.ss, free, last);
    var e := d[g.volbase + 1 := sector];
    hide Table, FlatFat, FsInfo.Build, WriteThrough;
    if g.volbase + 1 < g.fatbase {
      BeforeTheTable(g, d, g.volbase + 1, sector);
      EditElsewhere(g, d, g.volbase + 1, sector);
    } else {
      forall c | 2 <= c <= 120 && c < g.nFatent ensures Table(g, e)[c] == 0 {
        EntryUnderHints(g, e, c, free, last);
      }
    }
  }

  lemma EntryUnderHints(g: Geometry, e: Disk, c: nat, free: nat, last: nat)
    requires g.Valid() && g.IsDisk(e) && g.t == Fat32 && free <= MAX_DWORD && last <= MAX_DWORD
    requires g.fatbase < g.nsect && e[g.fatbase] == FsInfo.Build(g.ss, free, last) && 2 <= c <= 120 && c < g.nFatent
    ensures Table(g, e)[c] == 0
  {
    hide Table, FlatFat, FsInfo.Build, LdDword;
    TableAt(g, e, c);
    assert g.ss >= 512;
    DivUnique(c * 4, g.ss, 0, c * 4);
    hide Geometry.Valid;
    FlatDword(g, e, c * 4);
    FsInfo.BlankBetween(g.ss, free, last, c * 4);
  }
}
