/** An open file: reading, writing and seeking through a one-sector buffer (ff.c, struct FIL, f_read, f_write,
    f_lseek). */
module FatFile {
  import opened Arith
  import opened Bytes
  import opened FatEntries
  import opened FatVolume
  import opened FileData
  import opened FileSteps
  import opened FileGrowth
  import opened FatFs
  import Chains = FatChains
  import FsInfo
  import LinkMap
  import FileEntry
  import DirTable
  import opened LfnEntries
  import opened Options

  /** The file as its user may think of it. */
  datatype ByteArray = ByteArray(bytes: seq<byte>, pos: nat)

  datatype Request = WriteReq(data: seq<byte>) | ReadReq(len: nat) | SeekReq(ofs: nat)

  datatype Reply = Count(n: nat) | Data(out: seq<byte>) | Done | Refused

  /** What a handle may do, and, when a link map is set, how many bytes its clusters hold. */
  datatype Handle = Handle(canRead: bool, canWrite: bool, room: Option<nat>)

  /** How much of a write of `n` bytes f_write attempts: file pointers stay below 4 GiB. */
  function Clipped(p: nat, n: nat): (k: nat)
    ensures k <= n && (p <= 0xFFFF_FFFF ==> p + k <= 0xFFFF_FFFF)
    ensures k < n && p <= 0xFFFF_FFFF ==> p + k == 0xFFFF_FFFF
  {
    if p + n > MAX_DWORD then if p <= MAX_DWORD then MAX_DWORD - p else 0 else n
  }

  /** Where f_lseek tries to go in a file of `size` bytes: below 4 GiB, and not beyond the end unless it can grow. */
  function Target(h: Handle, size: nat, ofs: nat): (t: nat)
    ensures ofs <= size && ofs <= 0xFFFF_FFFF ==> t == ofs
    ensures size <= 0xFFFF_FFFF && size < ofs && !(h.canWrite && h.room.None?) ==> t == size
    ensures size < ofs && h.canWrite && h.room.None? ==> t <= 0xFFFF_FFFF && t <= ofs && (t < ofs ==> t == 0xFFFF_FFFF)
  {
    var t := if ofs > MAX_DWORD then MAX_DWORD else ofs;
    if t > size && (!h.canWrite || h.room.Some?) then size else t
  }

  /**
   What a byte array does with a request; `full` says that no cluster of the volume is free afterwards. A write
   keeps all that is offered below 4 GiB unless the volume is full or the link map ends; a seek beyond the end
   lengthens the array by bytes nobody wrote, and stops short only on a full volume.
   */
  ghost predicate Serves(h: Handle, full: bool, a: ByteArray, req: Request, rep: Reply, b: ByteArray) {
    a.pos <= |a.bytes| &&
    match req
    case WriteReq(data) =>
      if !h.canWrite then rep == Refused && b == a else
        && rep.Count? && rep.n <= |data| && rep.n <= Clipped(a.pos, |data|)
        && b == ByteArray(Splice(a.bytes, a.pos, data[..rep.n]), a.pos + rep.n)
        && (rep.n < Clipped(a.pos, |data|) ==> full || h.room == Some(b.pos))
    case ReadReq(len) =>
      if !h.canRead then rep == Refused && b == a else
        var end := if a.pos + len > |a.bytes| then |a.bytes| else a.pos + len;
        rep == Data(a.bytes[a.pos..end]) && b == ByteArray(a.bytes, end)
    case SeekReq(ofs) =>
      && rep == Done && a.bytes <= b.bytes && |b.bytes| == Max(|a.bytes|, b.pos) && b.pos <= Target(h, |a.bytes|, ofs)
      && (b.pos < Target(h, |a.bytes|, ofs) ==> full && |a.bytes| <= b.pos)
  }

  lemma PrefixSame(a: seq<byte>, b: seq<byte>)
    requires a <= b && |a| == |b|
    ensures a == b
  {
  }

  /** The entry at `o` of a sector of directory entries. */
  ghost function EntryAt(g: Geometry, d: Disk, s: nat, o: nat): Entry
    requires g.Valid() && g.IsDisk(d) && s < g.nsect && o + DirTable.SZDIRE <= g.ss
  {
    d[s][o..o + DirTable.SZDIRE]
  }

  /** By this entry and the table on the disk the file has the clusters `cs`, and they hold its size. */
  ghost predicate FileOn(g: Geometry, d: Disk, e: Entry, cs: seq<nat>, size: nat)
    requires g.Valid() && g.IsDisk(d)
  {
    && FileEntry.Size(e) == size <= MAX_DWORD
    && (if cs == [] then FileEntry.Clust(g.t, e) == 0
        else Chains.IsChain(Table(g, d), cs) && FileEntry.Clust(g.t, e) == cs[0])
    && IsLayout(g, cs) && size <= Capacity(g, cs)
  }

  lemma EntryThere(sector: seq<byte>, o: nat, e: Entry)
    requires o + DirTable.SZDIRE <= |sector|
    ensures DirTable.WithEntry(sector, o, e)[o..o + DirTable.SZDIRE] == e
  {
  }

  class File {
    const fs: FileSystem
    const buf: array<byte>
    const canRead: bool
    const canWrite: bool
    var err: FResult
    var fptr: nat
    var objsize: nat
    var sclust: nat
    var clust: nat
    var sect: nat
    var dirty: bool
    var modified: bool
    var cltbl: array?<nat>     // link map table of fast seek, if the user has set one
    ghost var chain: seq<nat>  // the clusters of the file, in order

    const dirSect: nat         // where the directory entry of the file is
    const dirOfs: nat

    /** What f_open leaves for a file whose directory entry is in sector `dirSect`, at `dirOfs`, and whose chain
        is `chain`. One that was created or cut off counts as changed. */
    constructor Open(fs: FileSystem, dirSect: nat, dirOfs: nat, created: bool, canRead: bool, canWrite: bool,
        ghost chain: seq<nat>)
      requires fs.Valid() && Chains.NoOnes(fs.Fat(), fs.g.nFatent)
      requires IsHome(fs.g, fs.Fat(), chain, dirSect) && dirOfs + DirTable.SZDIRE <= fs.g.ss
      requires var e := EntryAt(fs.g, fs.Store(), dirSect, dirOfs);
        FileOn(fs.g, fs.Store(), e, chain, FileEntry.Size(e))
      requires fs.winsect == dirSect
      ensures Valid() && fresh(buf) && this.fs == fs && this.canRead == canRead && this.canWrite == canWrite
      ensures err == Ok && fptr == 0 && cltbl == null && this.chain == chain && modified == created
      ensures this.dirSect == dirSect && this.dirOfs == dirOfs && Settled()
      ensures Contents() == FileBytes(fs.g, fs.Store(), chain, objsize)
      ensures objsize == FileEntry.Size(EntryAt(fs.g, fs.Store(), dirSect, dirOfs))
    {
      hide FileBytes, Capacity, Table;
      this.fs, this.canRead, this.canWrite := fs, canRead, canWrite;
      this.dirSect, this.dirOfs := dirSect, dirOfs;
      var e: Entry := fs.win[dirOfs..dirOfs + DirTable.SZDIRE];
      var size := FileEntry.Size(e);
      buf := new byte[fs.g.ss](_ => 0);
      err, fptr, objsize := Ok, 0, size;
      sclust, clust, sect := FileEntry.Clust(fs.g.t, e), 0, 0;
      dirty, modified, cltbl := false, created, null;
      this.chain := chain;
    }

    /** The directory entry of the file, as the volume has it. */
    ghost function Recorded(): Entry
      reads this, buf, fs, fs.win
      requires Core() && IsHome(fs.g, fs.Fat(), chain, dirSect) && dirOfs + DirTable.SZDIRE <= fs.g.ss
    {
      EntryAt(fs.g, fs.Store(), dirSect, dirOfs)
    }

    /** The entry has its place, and unless the file counts as changed it records first cluster and size as they
        are, and the buffer holds nothing the disk does not. */
    ghost predicate Settled()
      reads this, buf, fs, fs.win
      requires Core()
    {
      SettledAt(Snap(), dirty, modified, objsize, sclust)
    }

    /** Everything but where the file pointer stands. */
    ghost predicate Core()
      reads this, buf, fs, fs.win
      ensures Core() ==>
            && fs.Valid() && IsLayout(fs.g, chain) && fptr <= objsize <= Capacity(fs.g, chain)
            && objsize <= MAX_DWORD
      ensures Core() ==> if chain == [] then sclust == 0 else sclust == chain[0]
      ensures Core() ==> forall k :: 0 <= k < |chain| ==> chain[k] != 0
    {
      && fs.Valid() && buf.Length == fs.g.ss && buf != fs.win
      && Chains.NoOnes(fs.Fat(), fs.g.nFatent)
      && (if chain == [] then sclust == 0 else Chains.IsChain(fs.Fat(), chain) && sclust == chain[0])
      && IsLayout(fs.g, chain)
      && fptr <= objsize <= Capacity(fs.g, chain) && objsize <= MAX_DWORD
      && !Owns(fs.g, chain, fs.winsect)
      && (sect == 0 ==> !dirty)
      && (sect != 0 ==> sect < fs.g.nsect && Owns(fs.g, chain, sect))
      && (sect != 0 && !dirty ==> buf[..] == fs.Store()[sect])
    }

    /** The disk as it would be were the buffer written back. */
    ghost function View(): (d: Disk)
      reads this, buf, fs, fs.win
      requires Core()
      ensures fs.g.IsDisk(d)
    {
      if dirty then fs.Store()[sect := buf[..]] else fs.Store()
    }

    /** The bytes of the file. */
    ghost function Contents(): (r: seq<byte>)
      reads this, buf, fs, fs.win
      requires Core()
      ensures |r| == objsize
    {
      FileBytes(fs.g, View(), chain, objsize)
    }

    /** The cluster that holds byte `p`. */
    ghost function ClusterAt(p: nat): nat
      reads this
    {
      var k := fs.g.ClusterIx(p);
      if k < |chain| then chain[k] else 0
    }

    /** The current cluster and the buffer go with the file pointer. */
    ghost predicate Ready()
      reads this, buf, fs, fs.win
      ensures Ready() ==> Core()
    {
      && Core()
      && (fptr > 0 ==> clust == ClusterAt(fptr - 1))
      && (fptr % fs.g.ss != 0 ==> sect == FileSector(fs.g, chain, fptr / fs.g.ss))
    }

    /** After an error has been recorded, every operation is refused, and the file pointer means nothing any more. */
    ghost predicate Valid()
      reads this, buf, fs, fs.win
      ensures Valid() ==> Core()
      ensures Valid() && err == Ok ==> Ready()
    {
      Core() && (err == Ok ==> Ready())
    }

    ghost function Snap(): (s: Snapshot)
      reads this, buf, fs, fs.win
      requires Core()
      ensures |s.fat| == fs.g.nFatent && fs.g.IsDisk(s.store)
    {
      Snapshot(fs.Fat(), fs.Store(), chain, fs.freeClst)
    }

    // ---------------------------------------------------------------- the buffer

    /** Writes the buffer back if it is dirty. */
    method Flush()
      requires Core()
      modifies this`dirty, fs`disk
      ensures Core() && !dirty && View() == old(View()) && Contents() == old(Contents())
      ensures fs.Fat() == old(fs.Fat()) && Grows(fs.g, old(Snap()), Snap())
    {
      hide Table, WriteThrough, FileBytes;
      if dirty {
        OwnedIsData(fs.g, chain, sect);
        fs.WriteDataSector(buf[..], sect);
        dirty := false;
      }
    }

    // ---------------------------------------------------------------- following the chain

    /**
     create_chain as the file operations call it: behind cluster number `k` of the file, or for its first cluster.
     A cluster that is new belongs to the file from here on.
     */
    method CreateOrFollow(prev: nat, ghost k: nat) returns (c: nat)
      requires Core()
      requires if chain == [] then prev == 0 else k < |chain| && prev == chain[k]
      modifies this`sclust, this`chain, fs, fs.win
      ensures Core() && Contents() == old(Contents()) && Grows(fs.g, old(Snap()), Snap())
      ensures c == 0 ==> chain == old(chain) && sclust == old(sclust) && Chains.Full(fs.Fat())
      ensures c == 0 && chain != [] ==> k + 1 == |chain|
      ensures c != 0 ==> var i := if old(chain) == [] then 0 else k + 1; i < |chain| && c == chain[i]
      ensures buf[..] == old(buf[..])
    {
      hide Table, WriteThrough, TableEdit, FileBytes, Capacity, SectorCount, Grows, Chains.IsChain, Chains.Create,
          IsLayout, FileSystem.Valid, FileSystem.Store, Counted, Owns, Chains.NoOnes, Chains.Extends;
      ghost var before, store := fs.State(), fs.Store();
      EocFits(fs.g);
      ChainBounds(fs.g, before.fat, chain);
      Chains.FollowOrStart(before, chain, k, fs.Eoc());
      c := fs.CreateChain(prev);
      NotInTable(fs.g, chain, fs.winsect);
      if fs.Fat() == before.fat {
        Chains.SameTableSameState(before, prev, fs.Eoc());
        NothingGrows(fs.g, Snapshot(before.fat, store, chain, fs.freeClst));
      } else {
        Extended(fs.g, before, fs.State(), store, fs.Store(), chain, c, prev, fs.Eoc(), objsize, dirty, sect, buf[..]);
        chain := chain + [c];
        NotInTable(fs.g, chain, fs.winsect);
      }
      if sclust == 0 {
        sclust := c;
      }
    }

    /** The link map, if there is one, describes the chain or a first part of it. */
    ghost predicate MapOk()
      reads this`cltbl, this`chain, cltbl
    {
      cltbl != null ==> LinkMap.Terminated(cltbl[..], 1) && LinkMap.Expand(cltbl[..], 1) <= chain
    }

    /** The link map, if there is one, covers position `p`. */
    ghost predicate MapReaches(p: nat)
      reads this`cltbl, this`chain, cltbl
      requires MapOk()
    {
      cltbl == null || fs.g.ClusterIx(p) < |LinkMap.Expand(cltbl[..], 1)|
    }

    /** There is no cluster for the file pointer: the volume is full, or the link map ends there. */
    ghost predicate Stuck()
      reads this`cltbl, this`chain, this`fptr, fs, fs.win, cltbl
      requires fs.Valid() && MapOk()
    {
      Chains.Full(fs.Fat()) || (cltbl != null && !MapReaches(fptr))
    }

    /** The link map, if there is one, covers the file. */
    ghost predicate Covered()
      reads this`cltbl, this`chain, cltbl
    {
      MapOk() && (cltbl != null ==> chain != [] && |LinkMap.Expand(cltbl[..], 1)| == |chain|)
    }

    /** clmt_clust: the cluster that holds byte `ofs`, 0 when the map does not reach that far. */
    method ClmtClust(ofs: nat) returns (c: nat)
      requires cltbl != null && MapOk()
      ensures var k := fs.g.ClusterIx(ofs);
        c == if k < |LinkMap.Expand(cltbl[..], 1)| then chain[k] else 0
    {
      ghost var tbl := cltbl[..];
      var p: nat := 1;
      var cl: nat := fs.g.ClusterIx(ofs);
      LinkMap.LookupIsIndex(tbl, 1, cl);
      ghost var goal := LinkMap.Lookup(tbl, 1, cl);
      while cltbl[p] != 0 && cl >= cltbl[p]
        invariant p < cltbl.Length && LinkMap.Terminated(tbl, p) && LinkMap.Lookup(tbl, p, cl) == goal
        decreases cltbl.Length - p
      {
        cl := cl - cltbl[p];
        p := p + 2;
      }
      c := if cltbl[p] == 0 then 0 else cl + cltbl[p + 1];
    }

    method SetClust(c: nat)
      requires Core()
      modifies this`clust
      ensures Core() && clust == c && Contents() == old(Contents()) && Snap() == old(Snap())
      ensures fptr == 0 ==> Ready()
    {
      clust := c;
    }

    /** The start of a cluster is to be written: finds, or allocates, that cluster. 0: there is none to be had. */
    method WriteCluster() returns (clst: nat)
      requires Ready() && MapOk() && fptr % fs.g.ss == 0 && fptr / fs.g.ss % fs.g.csize == 0
      modifies this`sclust, this`clust, this`chain, fs, fs.win
      ensures Core() && MapOk() && Contents() == old(Contents()) && Grows(fs.g, old(Snap()), Snap())
      ensures clst == 0 ==> Ready() && chain == old(chain) && Stuck()
      ensures cltbl != null && old(chain) != [] ==> chain == old(chain)
      ensures clst != 0 ==> fptr < Capacity(fs.g, chain) && clust == ClusterAt(fptr)
    {
      hide Core, View, Contents, FileSystem.Valid, FileSystem.Store, FileBytes, Capacity, Grows, LinkMap.Expand,
          LinkMap.Terminated, Geometry.ClusterIx,
           IsLayout, Snap, Chains.Full;
      NothingGrows(fs.g, Snap());
      if fptr == 0 {
        clst := sclust;
        if clst == 0 {
          clst := CreateOrFollow(0, 0);
        }
      } else if cltbl != null {
        clst := ClmtClust(fptr);
      } else {
        NextCluster(fs.g, chain, fptr);
        clst := CreateOrFollow(clust, fs.g.ClusterIx(fptr - 1));
      }
      if clst != 0 {
        SetClust(clst);
        HasPosition(fs.g, chain, fptr);
        StartOfFile(fs.g);
      }
    }

    // ---------------------------------------------------------------- writing

    /** The file pointer is inside the cluster `clust`, and `sector` is the sector it points into. */
    ghost predicate At(sector: nat)
      reads this
    {
      clust == ClusterAt(fptr) && fptr < Capacity(fs.g, chain) && fs.g.ss > 0 && fs.g.csize > 0
      && sector == FileSector(fs.g, chain, fptr / fs.g.ss)
    }

    /** Part of a sector is written: into the buffer, after loading it unless the file ends where the sector starts. */
    method StorePart(sector: nat, data: seq<byte>)
      requires Core() && At(sector) && 0 < |data| <= fs.g.ss - fptr % fs.g.ss && fptr + |data| <= MAX_DWORD
      requires fptr % fs.g.ss != 0 ==> sect == sector
      requires sect != sector ==> !dirty
      modifies this`sect, this`dirty, this`fptr, this`objsize, buf
      ensures Ready() && Contents() == Splice(old(Contents()), old(fptr), data)
      ensures fptr == old(fptr) + |data| && Snap() == old(Snap())
    {
      hide FileBytes, Owns, FileSector, FileSystem.Valid, FileSystem.Store, Capacity, Table, PartialWrite,
          Geometry.ClusterIx, IsLayout, Chains.NoOnes, Chains.IsChain, Splice, Geometry.Valid;
      ghost var v := View();
      SectorOfPosition(fs.g, chain, fptr);
      PartFits(fs.g, chain, fptr, |data|);
      FillBuffer(sector, data);
      sect := sector;
      dirty := true;
      PartialWriteSplices(fs.g, v, fs.Store()[sector := buf[..]], chain, objsize, fptr, data);
      fptr := fptr + |data|;
      objsize := Max(objsize, fptr);
    }

    /** Loads the buffer if need be and puts `data` into it. */
    method FillBuffer(sector: nat, data: seq<byte>)
      requires Core() && At(sector) && 0 < |data| <= fs.g.ss - fptr % fs.g.ss
      requires sector < fs.g.nsect && (fptr % fs.g.ss != 0 ==> sect == sector) && (sect != sector ==> !dirty)
      modifies buf
      ensures fs.Valid() && fs.Store() == old(fs.Store())
      ensures PartialWrite(fs.g, old(View()), fs.Store()[sector := buf[..]], sector, objsize, fptr, data)
    {
      hide FileBytes, Owns, FileSector, FileSystem.Valid, FileSystem.Store, Capacity, Table, Geometry.ClusterIx,
          IsLayout;
      ghost var v := View();
      SectorOfPosition(fs.g, chain, fptr);
      if sect != sector && fptr < objsize {
        var loaded := fs.ReadDataSector(sector);
        forall i | 0 <= i < buf.Length {
          buf[i] := loaded[i];
        }
      }
      var o := fptr % fs.g.ss;
      assert forall k :: 0 <= k < fs.g.ss && k + (fptr - o) < objsize ==> buf[k] == v[sector][k];
      forall i | o <= i < o + |data| {
        buf[i] := data[i - o];
      }
    }

    /** Whole sectors are written straight to disk; the buffer is refreshed if it holds one of them. */
    method StoreRun(sector: nat, cc: nat, data: seq<byte>)
      requires Core() && At(sector) && !dirty && cc > 0 && |data| == cc * fs.g.ss && fptr + |data| <= MAX_DWORD
      requires fptr % fs.g.ss == 0 && fptr / fs.g.ss % fs.g.csize + cc <= fs.g.csize
      modifies this`dirty, this`fptr, this`objsize, buf, fs`disk
      ensures Ready() && Contents() == Splice(old(Contents()), old(fptr), data)
      ensures fptr == old(fptr) + |data| && Grows(fs.g, old(Snap()), Snap()) && fs.Fat() == old(fs.Fat())
    {
      hide FileBytes, Owns, FileSector, FileSystem.Valid, FileSystem.Store, Capacity, Table, WriteRun,
          Geometry.ClusterIx, IsLayout, Grows, IsRun;
      ghost var v := fs.Store();
      RunPlace(fs.g, chain, fptr, cc);
      WindowApart(fs.g, chain, fptr, cc, fs.winsect);
      WriteRunGrows(fs.g, fs.Fat(), v, chain, fptr, cc, data, fs.freeClst);
      WriteRunSplices(fs.g, v, chain, objsize, fptr, cc, data);
      WriteThroughBuffer(sector, cc, data);
      fptr := fptr + |data|;
      objsize := Max(objsize, fptr);
    }

    method WriteThroughBuffer(sector: nat, cc: nat, data: seq<byte>)
      requires Core() && !dirty && |data| == cc * fs.g.ss
      requires fs.g.FatEnd() <= sector && sector + cc <= fs.g.nsect && !(sector <= fs.winsect < sector + cc)
      modifies this`dirty, buf, fs`disk
      ensures Core() && !dirty && fs.Fat() == old(fs.Fat())
      ensures fs.Store() == WriteRun(fs.g, old(fs.Store()), sector, cc, data)
    {
      hide FileBytes, Owns, FileSystem.Valid, FileSystem.Store, Capacity, Table, WriteRun, IsLayout;
      ghost var v := fs.Store();
      WriteRunAt(fs.g, v, sector, cc, data, if sect < fs.g.nsect then sect else 0);
      fs.WriteData(data, sector, cc);
      if sector <= sect < sector + cc {
        var part := data[(sect - sector) * fs.g.ss..(sect - sector) * fs.g.ss + fs.g.ss];
        forall i | 0 <= i < buf.Length {
          buf[i] := part[i];
        }
        assert buf[..] == part;
        dirty := false;
      }
    }

    /** f_write at a sector boundary: the sector to write next, with the buffer clean; `full` when no cluster is
        left. */
    method SectorForWrite() returns (full: bool, sector: nat)
      requires Ready() && MapOk() && fptr % fs.g.ss == 0
      modifies this`sclust, this`clust, this`chain, this`dirty, fs, fs.win
      ensures Core() && MapOk() && Contents() == old(Contents()) && Grows(fs.g, old(Snap()), Snap())
      ensures full ==> Ready() && Stuck()
      ensures cltbl != null && old(chain) != [] ==> chain == old(chain)
      ensures !full ==> At(sector) && !dirty
    {
      hide Core, View, Contents, FileSystem.Valid, FileSystem.Store, FileBytes, Capacity, Grows, MapOk,
          Geometry.ClusterIx,
           IsLayout, Snap, Stuck;
      NothingGrows(fs.g, Snap());
      var csect := fptr / fs.g.ss % fs.g.csize;
      sector := 0;
      if csect == 0 {
        var clst := WriteCluster();
        if clst == 0 {
          return true, 0;
        }
      } else {
        StepInside(fs.g, chain, fptr);
      }
      ghost var mid := Snap();
      Flush();
      GrowsTwice(fs.g, old(Snap()), mid, Snap());
      sector := ClustSect(fs.g, clust) + csect;
      SectorOfCluster(fs.g, chain, fptr);
      full := false;
    }

    /** One round of the loop of f_write: `n` bytes of `data` are written, or none if the volume is full. */
    method WriteSome(data: seq<byte>) returns (n: nat)
      requires Ready() && MapOk() && 0 < |data| && fptr + |data| <= MAX_DWORD
      modifies this`sclust, this`clust, this`chain, this`sect, this`dirty, this`fptr, this`objsize, buf, fs, fs.win
      ensures Ready() && MapOk() && n <= |data| && fptr == old(fptr) + n
      ensures Contents() == Splice(old(Contents()), old(fptr), data[..n])
      ensures Grows(fs.g, old(Snap()), Snap())
      ensures n == 0 ==> Stuck()
      ensures cltbl != null && old(chain) != [] ==> chain == old(chain)
    {
      hide Core, Ready, View, Contents, FileSystem.Valid, FileSystem.Store, FileBytes, Capacity, Grows, MapOk,
          Geometry.ClusterIx, Splice;
      var sector := sect;
      if fptr % fs.g.ss == 0 {
        var full;
        full, sector := SectorForWrite();
        if full {
          NoSplice(Contents(), fptr, data);
          return 0;
        }
        if |data| / fs.g.ss > 0 {
          ghost var mid := Snap();
          n := WriteWhole(sector, data);
          GrowsTwice(fs.g, old(Snap()), mid, Snap());
          return;
        }
      } else {
        InsideSector();
        NothingGrows(fs.g, Snap());
      }
      n := fs.g.ss - fptr % fs.g.ss;
      if n > |data| {
        n := |data|;
      }
      StorePart(sector, data[..n]);
    }

    /** As many whole sectors as there are data and as the cluster has. */
    method WriteWhole(sector: nat, data: seq<byte>) returns (n: nat)
      requires Core() && At(sector) && !dirty && fptr % fs.g.ss == 0 && |data| / fs.g.ss > 0
          && fptr + |data| <= MAX_DWORD
      modifies this`dirty, this`fptr, this`objsize, buf, fs`disk
      ensures Ready() && 0 < n <= |data| && fptr == old(fptr) + n
      ensures Contents() == Splice(old(Contents()), old(fptr), data[..n])
      ensures Grows(fs.g, old(Snap()), Snap()) && fs.Fat() == old(fs.Fat())
    {
      hide Core, Ready, View, Contents, FileSystem.Valid, FileSystem.Store, FileBytes, Capacity, Grows,
          Geometry.ClusterIx, Splice;
      var csect := fptr / fs.g.ss % fs.g.csize;
      var cc := |data| / fs.g.ss;
      if csect + cc > fs.g.csize {
        cc := fs.g.csize - csect;
      }
      n := fs.g.ss * cc;
      WholeSectors(|data|, cc, fs.g.ss);
      StoreRun(sector, cc, data[..n]);
    }

    /** Between sector boundaries the buffer holds the sector the file pointer is in. */
    lemma InsideSector()
      requires Ready() && fptr % fs.g.ss != 0
      ensures At(sect)
    {
      StepInside(fs.g, chain, fptr);
    }

    /** f_write. Exactly the `bw` bytes reported are spliced in; fewer than asked for only when the volume is full. */
    method Write(data: seq<byte>) returns (res: FResult, bw: nat)
      requires Valid() && MapOk() && |data| <= MAX_DWORD
      modifies this`sclust, this`clust, this`chain, this`sect, this`dirty, this`fptr, this`objsize, this`modified,
          buf, fs, fs.win
      ensures Valid() && MapOk() && bw <= |data|
      ensures res == if err != Ok then err else if !canWrite then Denied else Ok
      ensures fptr == old(fptr) + bw
      ensures Contents() == Splice(old(Contents()), old(fptr), data[..bw])
      ensures Grows(fs.g, old(Snap()), Snap())
      ensures res != Ok ==> bw == 0
      ensures res == Ok ==> bw <= Clipped(old(fptr), |data|)
      ensures res == Ok && bw < Clipped(old(fptr), |data|) ==> Stuck()
      ensures cltbl != null && old(chain) != [] ==> chain == old(chain)
      ensures modified == (old(modified) || res == Ok)
      ensures res != Ok ==> objsize == old(objsize) && sclust == old(sclust) && dirty == old(dirty)
    {
      hide Core, Ready, View, Contents, FileSystem.Valid, FileSystem.Store, Capacity, Grows, MapOk, Splice, IsLayout,
          Stuck, Snap, Geometry.Valid;
      bw := 0;
      NothingGrows(fs.g, Snap());
      NoSplice(Contents(), fptr, data);
      if err != Ok {
        return err, 0;
      }
      if !canWrite {
        return Denied, 0;
      }
      var btw := |data|;
      if fptr + btw > MAX_DWORD {  // the sum wraps round in 32 bits
        btw := MAX_DWORD - fptr;
      }
      while bw < btw
        invariant Ready() && err == Ok && MapOk() && bw <= btw <= |data| && fptr == old(fptr) + bw
            && fptr + (btw - bw) <= MAX_DWORD
        invariant Contents() == Splice(old(Contents()), old(fptr), data[..bw])
        invariant Grows(fs.g, old(Snap()), Snap())
        invariant cltbl != null && old(chain) != [] ==> chain == old(chain)
      {
        ghost var mid := Snap();
        ghost var before := old(Contents());
        var n := WriteSome(data[bw..btw]);
        GrowsTwice(fs.g, old(Snap()), mid, Snap());
        SpliceNext(before, old(fptr), data, bw, btw, n);
        if n == 0 {
          break;
        }
        bw := bw + n;
      }
      SetModified();
      res := Ok;
    }

    method SetModified()
      requires Valid()
      modifies this`modified
      ensures Valid() && Contents() == old(Contents()) && Snap() == old(Snap()) && modified
    {
      hide FileBytes, Table, FileSystem.Valid, FileSystem.Store, Capacity, Owns, IsLayout, FileSector,
          Geometry.ClusterIx;
      modified := true;
    }

    // ---------------------------------------------------------------- reading

    /** f_read at a cluster boundary: the next cluster; 0 when a link map does not reach it. */
    method ReadCluster() returns (clst: nat)
      requires Ready() && MapOk() && fptr < objsize && fptr % fs.g.ss == 0 && fptr / fs.g.ss % fs.g.csize == 0
      modifies fs, fs.win
      ensures Core() && Contents() == old(Contents()) && Snap() == old(Snap())
      ensures clst == ClusterAt(fptr) || (clst == 0 && !MapReaches(fptr))
      ensures clst == ClusterAt(fptr) ==> clst != 0
    {
      hide View, FileBytes, Table, FileSystem.Valid, FileSystem.Store, Capacity, MapOk, LinkMap.Expand,
          LinkMap.Terminated, Owns, Geometry.ClusterIx;
      HasPosition(fs.g, chain, fptr);
      StartOfFile(fs.g);
      if fptr == 0 {
        clst := sclust;
      } else if cltbl != null {
        clst := ClmtClust(fptr);
      } else {
        NextCluster(fs.g, chain, fptr);
        clst := Follow(clust, fs.g.ClusterIx(fptr - 1));
      }
    }

    /** get_fat on cluster number `k` of the file. */
    method Follow(c: nat, ghost k: nat) returns (next: nat)
      requires Core() && k + 1 < |chain| && c == chain[k]
      modifies fs`disk, fs`wflag, fs`winsect, fs.win
      ensures Core() && Contents() == old(Contents()) && Snap() == old(Snap())
      ensures next == chain[k + 1] && sect == old(sect) && dirty == old(dirty)
    {
      hide FileBytes, Table, FileSystem.Valid, FileSystem.Store, Capacity, Owns, IsLayout;
      Chains.LinkedFrom(fs.Fat(), chain, k + 1);
      next := fs.GetFat(c);
      NotInTable(fs.g, chain, fs.winsect);
    }

    /** f_read at a sector boundary: the sector to read next. */
    method SectorForRead() returns (ok: bool, sector: nat)
      requires Ready() && MapOk() && fptr < objsize && fptr % fs.g.ss == 0
      modifies this`clust, fs, fs.win
      ensures Core() && Contents() == old(Contents()) && Snap() == old(Snap())
      ensures !ok ==> Ready() && !MapReaches(fptr)
      ensures ok ==> At(sector)
    {
      hide Core, View, Contents, FileSystem.Valid, FileSystem.Store, FileBytes, Capacity, MapOk, Geometry.ClusterIx;
      var csect := fptr / fs.g.ss % fs.g.csize;
      sector := 0;
      if csect == 0 {
        var clst := ReadCluster();
        if clst < 2 {
          AtLeastTwo(fptr);
          return false, 0;
        }
        SetClust(clst);
      } else {
        StepInside(fs.g, chain, fptr);
      }
      sector := ClustSect(fs.g, clust) + csect;
      SectorOfCluster(fs.g, chain, fptr);
      ok := true;
    }

    lemma AtLeastTwo(p: nat)
      requires Core()
      ensures ClusterAt(p) == 0 || ClusterAt(p) >= 2
    {
    }

    ghost predicate BufferShows(sector: nat)
      reads this, buf, fs, fs.win
      requires Core()
    {
      sector < fs.g.nsect && buf[..] == View()[sector]
    }

    /** Brings `sector` into the buffer, writing back what is there first. */
    method LoadBuffer(sector: nat)
      requires Core() && At(sector)
      modifies this`sect, this`dirty, buf, fs`disk
      ensures Core() && Contents() == old(Contents()) && Grows(fs.g, old(Snap()), Snap()) && fs.Fat() == old(fs.Fat())
      ensures sect == sector && BufferShows(sector) && (dirty ==> old(dirty))
    {
      hide FileBytes, Table, FileSystem.Valid, FileSystem.Store, Capacity, Owns, IsLayout, Grows, FileSector,
          Geometry.ClusterIx;
      SectorOfPosition(fs.g, chain, fptr);
      NothingGrows(fs.g, Snap());
      if sect != sector {
        Flush();
        var loaded := fs.ReadDataSector(sector);
        forall i | 0 <= i < buf.Length {
          buf[i] := loaded[i];
        }
        assert buf[..] == loaded;
      }
      sect := sector;
    }

    /** Whole sectors are read straight from disk; the one in the buffer is taken from there if it is newer. */
    method FetchRun(sector: nat, cc: nat) returns (out: seq<byte>)
      requires Core() && At(sector) && fptr % fs.g.ss == 0 && cc > 0 && fptr / fs.g.ss % fs.g.csize + cc <= fs.g.csize
      requires fptr + cc * fs.g.ss <= objsize
      ensures out == Contents()[fptr..fptr + cc * fs.g.ss]
    {
      hide FileBytes, Table, FileSystem.Valid, FileSystem.Store, Capacity, Owns, IsLayout, FileSector,
          Geometry.ClusterIx, ReadRun, IsRun;
      RunPlace(fs.g, chain, fptr, cc);
      WindowApart(fs.g, chain, fptr, cc, fs.winsect);
      out := fs.ReadData(sector, cc);
      if dirty && sector <= sect < sector + cc {
        RunBound(sect - sector, cc, fs.g.ss);
        var a := (sect - sector) * fs.g.ss;
        out := Patched(out, a, buf[..]);
      }
      PatchedRun(fs.g, fs.Store(), sector, cc, dirty, sect, buf[..]);
      ReadRunIsSlice(fs.g, View(), chain, objsize, fptr, cc);
    }

    /** One round of the loop of f_read: the next bytes of the file, `btr` of them at most. */
    method ReadSome(btr: nat) returns (ok: bool, out: seq<byte>)
      requires Ready() && MapOk() && 0 < btr && fptr + btr <= objsize
      modifies this`clust, this`sect, this`dirty, this`fptr, buf, fs, fs.win
      ensures Ready() && MapOk() && Contents() == old(Contents()) && Grows(fs.g, old(Snap()), Snap())
      ensures ok ==> 0 < |out| <= btr && fptr == old(fptr) + |out| && out == Contents()[old(fptr)..fptr]
      ensures !ok ==> fptr == old(fptr) && out == [] && !MapReaches(fptr)
      ensures dirty ==> old(dirty)
    {
      hide Core, Ready, View, Contents, FileSystem.Valid, FileSystem.Store, Capacity, MapOk, Geometry.ClusterIx,
          Grows, FileSector;
      NothingGrows(fs.g, Snap());
      var sector := sect;
      if fptr % fs.g.ss == 0 {
        ok, sector := SectorForRead();
        if !ok {
          return false, [];
        }
        var csect := fptr / fs.g.ss % fs.g.csize;
        var cc := btr / fs.g.ss;
        if cc > 0 {
          if csect + cc > fs.g.csize {
            cc := fs.g.csize - csect;
          }
          WholeSectors(btr, cc, fs.g.ss);
          out := FetchRun(sector, cc);
          MoveOverRun(sector, cc);
          return;
        }
      } else {
        InsideSector();
      }
      out := ReadPart(sector, btr);
      ok := true;
    }

    /** The part of a sector that is read through the buffer. */
    method ReadPart(sector: nat, btr: nat) returns (out: seq<byte>)
      requires Core() && At(sector) && 0 < btr && fptr + btr <= objsize
      modifies this`sect, this`dirty, this`fptr, buf, fs`disk
      ensures Ready() && Contents() == old(Contents()) && Grows(fs.g, old(Snap()), Snap())
      ensures 0 < |out| <= btr && fptr == old(fptr) + |out| && out == Contents()[old(fptr)..fptr]
      ensures dirty ==> old(dirty)
    {
      hide Core, Ready, View, Contents, FileSystem.Valid, FileSystem.Store, Capacity, Geometry.ClusterIx, Grows,
          FileSector;
      LoadBuffer(sector);
      var rcnt := fs.g.ss - fptr % fs.g.ss;
      if rcnt > btr {
        rcnt := btr;
      }
      out := FetchPart(sector, rcnt);
    }

    method MoveOverRun(sector: nat, cc: nat)
      requires Core() && At(sector) && fptr % fs.g.ss == 0 && cc > 0 && fptr / fs.g.ss % fs.g.csize + cc <= fs.g.csize
      requires fptr + cc * fs.g.ss <= objsize
      modifies this`fptr
      ensures Ready() && Contents() == old(Contents()) && Snap() == old(Snap()) && fptr == old(fptr) + cc * fs.g.ss
    {
      hide FileBytes, Table, FileSystem.Valid, FileSystem.Store, Capacity, Owns, IsLayout, FileSector,
          Geometry.ClusterIx, IsRun;
      RunPlace(fs.g, chain, fptr, cc);
      fptr := fptr + cc * fs.g.ss;
    }

    /** Part of the sector in the buffer is read. */
    method FetchPart(sector: nat, m: nat) returns (out: seq<byte>)
      requires Core() && At(sector) && sect == sector && BufferShows(sector)
      requires 0 < m <= fs.g.ss - fptr % fs.g.ss && fptr + m <= objsize
      modifies this`fptr
      ensures Ready() && Contents() == old(Contents()) && Snap() == old(Snap()) && fptr == old(fptr) + m
      ensures out == Contents()[old(fptr)..fptr]
    {
      hide FileBytes, Table, FileSystem.Valid, FileSystem.Store, Capacity, Owns, IsLayout, FileSector,
          Geometry.ClusterIx;
      SectorOfPosition(fs.g, chain, fptr);
      PartFits(fs.g, chain, fptr, m);
      ReadPartIsSlice(fs.g, View(), chain, objsize, fptr, m);
      var o := fptr % fs.g.ss;
      out := buf[o..o + m];
      fptr := fptr + m;
    }

    /** f_read: the next bytes of the file, up to its end. Only a link map that is too short can stop it. */
    method Read(len: nat) returns (res: FResult, out: seq<byte>)
      requires Valid() && MapOk()
      modifies this`clust, this`sect, this`dirty, this`fptr, this`err, buf, fs, fs.win
      ensures Valid() && MapOk() && Contents() == old(Contents()) && Grows(fs.g, old(Snap()), Snap())
      ensures old(err) != Ok ==> res == old(err) && out == []
      ensures old(err) == Ok && !canRead ==> res == Denied && out == [] && err == Ok
      ensures fptr == old(fptr) + |out| <= objsize && out == Contents()[old(fptr)..fptr]
      ensures res == Ok ==> err == Ok
      ensures res == IntErr ==> err == IntErr
      ensures old(err) == Ok && canRead ==> res == Ok || (res == IntErr && fptr < objsize && !MapReaches(fptr))
      ensures res == Ok ==> |out| == if len > objsize - old(fptr) then objsize - old(fptr) else len
      ensures dirty ==> old(dirty)
    {
      hide Core, Ready, View, Contents, FileSystem.Valid, FileSystem.Store, Capacity, Grows, MapOk;
      NothingGrows(fs.g, Snap());
      out := [];
      if err != Ok {
        return err, [];
      }
      if !canRead {
        return Denied, [];
      }
      var remain := objsize - fptr;
      var btr: nat := if len > remain then remain else len;
      ghost var total := btr;
      while btr > 0
        invariant Ready() && err == Ok && MapOk() && Contents() == old(Contents()) && Grows(fs.g, old(Snap()), Snap())
        invariant fptr == old(fptr) + |out| && out == Contents()[old(fptr)..fptr]
        invariant btr + |out| == total && fptr + btr <= objsize == old(objsize) && (dirty ==> old(dirty))
        decreases btr
      {
        ghost var mid := Snap();
        var ok, part := ReadSome(btr);
        GrowsTwice(fs.g, old(Snap()), mid, Snap());
        if !ok {
          Abort();
          return IntErr, out;
        }
        out := out + part;
        btr := btr - |part|;
      }
      res := Ok;
    }

    /** ABORT: the error sticks to the file. */
    method Abort()
      requires Core()
      modifies this`err
      ensures Valid() && Contents() == old(Contents()) && Snap() == old(Snap()) && err == IntErr
    {
      err := IntErr;
    }

    // ---------------------------------------------------------------- seeking

    ghost function Rights(): Handle
      reads this`chain, this`cltbl
    {
      Handle(canRead, canWrite, if cltbl == null then None else Some(Capacity(fs.g, chain)))
    }

    function TargetHere(ofs: nat): nat
      reads this`objsize, this`cltbl
    {
      Target(Handle(canRead, canWrite, if cltbl == null then None else Some(0)), objsize, ofs)
    }

    /** The file pointer moves to `p`, and the end of the file with it if `p` lies beyond. */
    method MoveTo(p: nat)
      requires Core() && p <= Capacity(fs.g, chain) && p <= MAX_DWORD
      modifies this`fptr, this`objsize, this`modified
      ensures Core() && fptr == p && objsize == Max(old(objsize), p)
      ensures modified == (old(modified) || objsize > old(objsize))
      ensures old(Contents()) <= Contents() && Snap() == old(Snap())
    {
      hide Owns, Table, FileSystem.Valid, FileSystem.Store, Capacity, IsLayout;
      fptr := p;
      if fptr > objsize {
        objsize := fptr;
        modified := true;
      }
    }

    /** The file pointer is at the start of cluster number `k`, which is `clust`. */
    ghost predicate AtCluster(k: nat)
      reads this
    {
      k < |chain| && clust == chain[k] && fptr == k * fs.g.Bcs()
    }

    /**
     Where the search for position `ofs` starts: at the current cluster when that is not behind `ofs`, else at the
     first, which is allocated if need be. Returns what is left to go; 0 when there is no cluster to be had.
     */
    method SeekStart(ofs: nat) returns (left: nat, ghost k: nat)
      requires Ready() && 0 < ofs <= MAX_DWORD && (ofs <= objsize || canWrite)
      modifies this`fptr, this`clust, this`sclust, this`chain, fs, fs.win
      ensures Core() && Contents() == old(Contents()) && Grows(fs.g, old(Snap()), Snap())
      ensures left == 0 ==> Ready() && fptr == 0 && chain == [] && Chains.Full(fs.Fat())
      ensures left != 0 ==> AtCluster(k) && fptr + left == ofs
    {
      hide Core, Ready, View, Contents, FileSystem.Valid, FileSystem.Store, FileBytes, Capacity, Grows,
          Geometry.ClusterIx, Geometry.Bcs;
      NothingGrows(fs.g, Snap());
      BcsPositive(fs.g);
      if fptr > 0 && (ofs - 1) / fs.g.Bcs() >= (fptr - 1) / fs.g.Bcs() {
        left, k := StayInCluster(ofs);
      } else {
        var clst := sclust;
        k := 0;
        MoveBack(0);
        if clst == 0 {
          clst := CreateOrFollow(0, 0);
        }
        SetClust(clst);
        ClusterEnds(fs.g, chain, 0);
        left := if clst == 0 then 0 else ofs;
      }
    }

    /** Back to the start of the current cluster. */
    method StayInCluster(ofs: nat) returns (left: nat, ghost k: nat)
      requires Ready() && 0 < fptr && 0 < ofs && fs.g.Bcs() > 0 && (ofs - 1) / fs.g.Bcs() >= (fptr - 1) / fs.g.Bcs()
      modifies this`fptr
      ensures Core() && Contents() == old(Contents()) && Snap() == old(Snap())
      ensures AtCluster(k) && left > 0 && fptr + left == ofs
    {
      hide Core, View, Contents, FileSystem.Valid, FileSystem.Store, FileBytes, Capacity, Geometry.ClusterIx,
          Geometry.Bcs;
      k := (fptr - 1) / fs.g.Bcs();
      HasPosition(fs.g, chain, fptr - 1);
      ByBcs(fs.g, fptr - 1);
      SameOrLater(ofs, fptr, fs.g.Bcs());
      MoveBack((fptr - 1) / fs.g.Bcs() * fs.g.Bcs());
      left := ofs - fptr;
    }

    method MoveBack(p: nat)
      requires Core() && p <= fptr
      modifies this`fptr
      ensures Core() && fptr == p && Contents() == old(Contents()) && Snap() == old(Snap())
      ensures p == 0 ==> Ready()
    {
      fptr := p;
    }

    /** One round of the cluster loop of f_lseek: to the start of the next cluster, allocating it when writing. */
    method SeekStep(ghost k: nat, left: nat) returns (full: bool)
      requires Core() && AtCluster(k) && left > fs.g.Bcs() && fptr + left <= MAX_DWORD
          && (fptr + left <= objsize || canWrite)
      modifies this`fptr, this`objsize, this`modified, this`clust, this`sclust, this`chain, fs, fs.win
      ensures Core() && old(Contents()) <= Contents() && Grows(fs.g, old(Snap()), Snap())
      ensures fptr == old(fptr) + fs.g.Bcs() && objsize == Max(old(objsize), fptr)
      ensures modified == (old(modified) || objsize > old(objsize))
      ensures full ==> Ready() && canWrite && fptr == Capacity(fs.g, chain) && Chains.Full(fs.Fat())
      ensures !full ==> AtCluster(k + 1)
    {
      hide Core, Ready, View, Contents, FileSystem.Valid, FileSystem.Store, FileBytes, Capacity, Grows,
          Geometry.ClusterIx;
      ClusterEnds(fs.g, chain, k);
      ClusterEnds(fs.g, chain, k + 1);
      MoveTo(fptr + fs.g.Bcs());
      var clst;
      if canWrite {
        clst := CreateOrFollow(clust, k);
      } else {
        clst := Follow(clust, k);
        NothingGrows(fs.g, old(Snap()));
      }
      full := clst == 0;
      if !full {
        SetClust(clst);
      } else {
        EndOfChain(k);
      }
    }

    lemma EndOfChain(k: nat)
      requires Core() && k + 1 == |chain| && clust == chain[k] && fptr == (k + 1) * fs.g.Bcs()
      ensures Ready() && fptr == Capacity(fs.g, chain)
    {
      hide Capacity, Geometry.ClusterIx, Geometry.Bcs, FileSector, Core;
      LastOfCluster(fs.g, chain, k);
    }

    /** The last step of f_lseek: `left` bytes into the cluster, and the buffer loaded when that is inside a sector. */
    method SeekFinish(ghost k: nat, left: nat)
      requires Core() && AtCluster(k) && 0 < left <= fs.g.Bcs() && fptr + left <= MAX_DWORD
          && (fptr + left <= objsize || canWrite)
      modifies this`fptr, this`objsize, this`modified, this`sect, this`dirty, buf, fs`disk
      ensures Ready() && old(Contents()) <= Contents() && Grows(fs.g, old(Snap()), Snap())
      ensures fptr == old(fptr) + left && objsize == Max(old(objsize), fptr)
      ensures modified == (old(modified) || objsize > old(objsize)) && (dirty ==> old(dirty))
    {
      hide Core, View, Contents, FileSystem.Valid, FileSystem.Store, FileBytes, Capacity, Grows, FileSector,
          Geometry.ClusterIx, Geometry.Bcs;
      SeekPlace(fs.g, chain, k, left);
      MoveTo(fptr + left);
      NothingGrows(fs.g, Snap());
      if fptr % fs.g.ss != 0 {
        var nsect := ClustSect(fs.g, clust) + left / fs.g.ss;
        LoadBuffer(nsect);
      }
    }

    /** f_lseek without a link map. */
    method SeekNormal(target: nat)
      requires Ready() && target <= MAX_DWORD && (target <= objsize || canWrite) && cltbl == null
      modifies this`fptr, this`objsize, this`modified, this`sect, this`dirty, this`clust, this`sclust, this`chain,
          buf, fs, fs.win
      ensures Ready() && old(Contents()) <= Contents() && Grows(fs.g, old(Snap()), Snap())
      ensures objsize == Max(old(objsize), fptr) && fptr <= target
      ensures modified == (old(modified) || objsize > old(objsize)) && (dirty ==> old(dirty))
      ensures fptr == 0 ==> chain == old(chain) || chain == []
      ensures fptr < target ==> canWrite && fptr == Capacity(fs.g, chain) && Chains.Full(fs.Fat())
    {
      hide Core, Ready, View, Contents, FileSystem.Valid, FileSystem.Store, FileBytes, Capacity, Grows, Geometry.Bcs,
          AtCluster, Snap, IsLayout, Chains.Full;
      NothingGrows(fs.g, Snap());
      if target == 0 {
        MoveBack(0);
        return;
      }
      var left: nat;
      ghost var k;
      left, k := SeekStart(target);
      if left == 0 {
        EmptyCapacity(fs.g);
        return;
      }
      BcsPositive(fs.g);
      var full := false;
      while left > fs.g.Bcs() && !full
        invariant Core() && old(Contents()) <= Contents() && Grows(fs.g, old(Snap()), Snap())
        invariant objsize == Max(old(objsize), fptr) && (target <= objsize || canWrite)
        invariant modified == (old(modified) || objsize > old(objsize)) && dirty == old(dirty)
        invariant !full ==> AtCluster(k) && fptr + left == target && left > 0
        invariant full ==>
              && Ready() && canWrite && 0 < fptr < target && fptr == Capacity(fs.g, chain)
              && Chains.Full(fs.Fat())
        decreases !full, left
      {
        ghost var mid, part := Snap(), Contents();
        full := SeekStep(k, left);
        GrowsTwice(fs.g, old(Snap()), mid, Snap());
        PrefixTwice(old(Contents()), part, Contents());
        left := left - fs.g.Bcs();
        k := k + 1;
      }
      if !full {
        ghost var mid, part := Snap(), Contents();
        SeekFinish(k, left);
        GrowsTwice(fs.g, old(Snap()), mid, Snap());
        PrefixTwice(old(Contents()), part, Contents());
      }
    }

    /** f_lseek with a link map: never beyond the end of the file; fails where the map does not reach. */
    method SeekFast(target: nat) returns (res: FResult)
      requires Ready() && MapOk() && cltbl != null && target <= objsize
      modifies this`fptr, this`err, this`sect, this`dirty, this`clust, buf, fs`disk
      ensures Core() && MapOk() && Contents() == old(Contents()) && Grows(fs.g, old(Snap()), Snap())
      ensures fptr == target
      ensures res == if target == 0 || MapReaches(target - 1) then Ok else IntErr
      ensures res == Ok ==> Ready() && err == old(err)
      ensures res != Ok ==> err == res
      ensures dirty ==> old(dirty)
    {
      hide Core, View, Contents, FileSystem.Valid, FileSystem.Store, FileBytes, Capacity, Grows, MapOk, FileSector,
          Geometry.ClusterIx, Snap, IsLayout, LinkMap.Expand;
      NothingGrows(fs.g, Snap());
      PlaceAt(target);
      res := Ok;
      if target != 0 {
        var c := ClmtClust(target - 1);
        SetClust(c);
        var dsc := ClustSect(fs.g, c);
        LookupBounds(target - 1);
        if dsc == 0 {
          Abort();
          return IntErr;
        }
        dsc := dsc + (target - 1) / fs.g.ss % fs.g.csize;
        if fptr % fs.g.ss != 0 {
          ArrivedAt(dsc);
          LoadBuffer(dsc);
        }
      }
    }

    lemma ArrivedAt(sector: nat)
      requires Core() && 0 < fptr && fptr % fs.g.ss != 0 && fs.g.ClusterIx(fptr - 1) < |chain|
      requires clust == chain[fs.g.ClusterIx(fptr - 1)]
      requires fs.g.csize > 0 && sector == ClustSect(fs.g, clust) + (fptr - 1) / fs.g.ss % fs.g.csize
      ensures At(sector)
    {
      hide FileSystem.Valid, FileSystem.Store, Capacity, FileSector, Geometry.ClusterIx, Core;
      StepInside(fs.g, chain, fptr);
      SectorOfCluster(fs.g, chain, fptr);
      SameSectorBefore(fptr, fs.g.ss);
    }

    method PlaceAt(p: nat)
      requires Core() && p <= objsize
      modifies this`fptr
      ensures Core() && fptr == p && Contents() == old(Contents()) && Snap() == old(Snap())
      ensures p == 0 ==> Ready()
    {
      hide FileBytes, Table, FileSystem.Valid, FileSystem.Store, Capacity, Owns, IsLayout, FileSector,
          Geometry.ClusterIx;
      fptr := p;
    }

    /** What a lookup yields is a cluster of the file, or nothing. */
    lemma LookupBounds(ofs: nat)
      requires Core() && cltbl != null && MapOk()
      ensures fs.g.ClusterIx(ofs) < |LinkMap.Expand(cltbl[..], 1)| ==>
        fs.g.ClusterIx(ofs) < |chain| && fs.g.InRange(chain[fs.g.ClusterIx(ofs)])
            && ClustSect(fs.g, chain[fs.g.ClusterIx(ofs)]) != 0
      ensures ClustSect(fs.g, 0) == 0
    {
      hide Geometry.ClusterIx, LinkMap.Expand;
      var k := fs.g.ClusterIx(ofs);
      if k < |LinkMap.Expand(cltbl[..], 1)| {
        ClusterOfSector(fs.g, chain[k], 0);
        AreaBounds(fs.g);
      }
    }

    /** f_lseek, but for the special offset that asks for a link map. */
    method Seek(ofs: nat) returns (res: FResult)
      requires Valid() && MapOk()
      modifies this`fptr, this`objsize, this`modified, this`err, this`sect, this`dirty, this`clust, this`sclust,
          this`chain, buf, fs, fs.win
      ensures Valid() && MapOk() && old(Contents()) <= Contents() && Grows(fs.g, old(Snap()), Snap())
      ensures old(err) != Ok ==> res == old(err) && fptr == old(fptr) && objsize == old(objsize)
      ensures old(err) == Ok ==> fptr <= old(TargetHere(ofs)) && objsize == Max(old(objsize), fptr)
      ensures old(err) == Ok ==> res == if fptr == 0 || MapReaches(fptr - 1) then Ok else IntErr
      ensures old(err) == Ok && fptr < old(TargetHere(ofs)) ==>
          canWrite && fptr == Capacity(fs.g, chain) && Chains.Full(fs.Fat())
      ensures res == Ok ==> err == Ok
      ensures cltbl != null ==> chain == old(chain)
      ensures modified == (old(modified) || objsize > old(objsize)) && (dirty ==> old(dirty))
      ensures sclust != old(sclust) ==> objsize > old(objsize)
    {
      hide Core, Ready, View, Contents, FileSystem.Valid, FileSystem.Store, FileBytes, Capacity, Grows,
          Geometry.ClusterIx;
      NothingGrows(fs.g, Snap());
      if err != Ok {
        return err;
      }
      res := Ok;
      if cltbl != null {
        res := SeekFast(if ofs > objsize then objsize else ofs);
      } else {
        var target := if ofs > MAX_DWORD then MAX_DWORD else ofs;
        if target > objsize && !canWrite {
          target := objsize;
        }
        EmptyCapacity(fs.g);
        SeekNormal(target);
        StartKept(fs.g, old(Snap()), Snap());
      }
    }

    // ---------------------------------------------------------------- the link map

    /** get_fat on behalf of the file. */
    method Peek(c: nat) returns (v: nat)
      requires Core()
      modifies fs`disk, fs`wflag, fs`winsect, fs.win
      ensures Core() && Contents() == old(Contents()) && Snap() == old(Snap()) && fs.Fat() == old(fs.Fat())
      ensures v == if fs.g.InRange(c) then fs.Fat()[c] else 1
    {
      hide FileBytes, Table, FileSystem.Valid, FileSystem.Store, Capacity, Owns, IsLayout;
      v := fs.GetFat(c);
      NotInTable(fs.g, chain, fs.winsect);
    }

    lemma AtFragment(k: nat)
      requires Core() && k < |chain|
      ensures InFragment(fs.Fat(), chain, k, k, chain[k]) && |fs.Fat()| == fs.g.nFatent
    {
    }

    /** A fragment of the chain: follows links as long as they lead to the next cluster number. */
    method Fragment(top: nat, ghost k: nat) returns (ok: bool, ncl: nat, next: nat)
      requires Core() && k < |chain| && top == chain[k]
      modifies fs`disk, fs`wflag, fs`winsect, fs.win
      ensures Core() && Contents() == old(Contents()) && Snap() == old(Snap())
      ensures if ok then FragmentEnds(fs.Fat(), chain, k, k + ncl, next) else !EndsPlainly(fs.Fat(), chain)
    {
      hide Core, Contents, View, FileSystem.Valid, FileSystem.Store, InFragment, FragmentEnds, EndsPlainly, IsLayout,
          Snap, Capacity, Table, Geometry.Valid;
      ghost var fat := fs.Fat();
      AtFragment(k);
      next := top;
      ncl := 0;
      while true
        invariant Core() && Contents() == old(Contents()) && Snap() == old(Snap()) && fs.Fat() == fat
        invariant InFragment(fat, chain, k, k + ncl, next) && k + ncl <= |chain|
        decreases |chain| - ncl, next < fs.g.nFatent
      {
        var pcl := next;
        FragmentStep(fat, chain, k, k + ncl, pcl);
        next := Peek(pcl);
        if next <= 1 {
          return false, ncl, next;
        }
        ncl := ncl + 1;
        if next != pcl + 1 {
          return true, ncl, next;
        }
      }
    }

    /**
     f_lseek(CREATE_LINKMAP): writes the map of the chain into the table the user has set, whose first item gives its
     size, and reports the size needed. The map then describes the chain, the whole of it.
     */
    method CreateLinkMap() returns (res: FResult)
      requires Valid() && cltbl != null && cltbl.Length > 0 && cltbl[0] <= cltbl.Length
      modifies this`err, cltbl, fs`disk, fs`wflag, fs`winsect, fs.win
      ensures Valid() && Contents() == old(Contents()) && Snap() == old(Snap())
      ensures old(err) != Ok ==> res == old(err) && cltbl[..] == old(cltbl[..])
      ensures old(err) == Ok && !EndsPlainly(fs.Fat(), chain) ==> res == IntErr == err
      ensures old(err) == Ok && EndsPlainly(fs.Fat(), chain) ==>
        cltbl[0] == 2 * LinkMap.Fragments(chain) + 2 && res == if cltbl[0] <= old(cltbl[0]) then Ok else NotEnoughCore
      ensures res == Ok ==> MapOk() && LinkMap.Expand(cltbl[..], 1) == chain
    {
      hide Core, Ready, View, Contents, FileSystem.Valid, FileSystem.Store, FragmentEnds, EndsPlainly,
          LinkMap.Fragments, Snap, Written;
      if err != Ok {
        return err;
      }
      var tlen := cltbl[0];
      var ok, t, ulen := FillMap(tlen);
      if !ok {
        Abort();
        return IntErr;
      }
      ghost var done := cltbl[..];
      WrittenFits(done, chain, |chain|, tlen, t, ulen);
      cltbl[0] := ulen;
      if ulen <= tlen {
        cltbl[t] := 0;
        res := Ok;
      } else {
        res := NotEnoughCore;
      }
      WrittenAll(done, cltbl[..], chain, tlen, t, ulen);
    }

    /** The loop over the fragments. */
    method FillMap(tlen: nat) returns (ok: bool, t: nat, ulen: nat)
      requires Ready() && err == Ok && cltbl != null && cltbl.Length > 0 && tlen <= cltbl.Length
      modifies cltbl, fs`disk, fs`wflag, fs`winsect, fs.win
      ensures Ready() && Contents() == old(Contents()) && Snap() == old(Snap())
      ensures ok <==> EndsPlainly(fs.Fat(), chain)
      ensures ok ==> Written(cltbl[..], chain, |chain|, tlen, t, ulen) && (ulen <= tlen ==> t < cltbl.Length)
    {
      hide Core, Ready, View, Contents, FileSystem.Valid, FileSystem.Store, FragmentEnds, EndsPlainly,
          LinkMap.Fragments, Snap, Written;
      ok, t, ulen := true, 1, 2;
      var cl := sclust;
      ghost var k: nat := 0;
      WrittenStart(cltbl[..], chain, tlen);
      NoFragment(fs.Fat(), chain);
      if cl == 0 {
        WrittenFits(cltbl[..], chain, k, tlen, t, ulen);
        return;
      }
      while true
        invariant Ready() && err == Ok && Contents() == old(Contents()) && Snap() == old(Snap())
        invariant k < |chain| && cl == chain[k] && ok
        invariant Written(cltbl[..], chain, k, tlen, t, ulen)
        decreases |chain| - k
      {
        var ncl, next;
        ok, ncl, next := NextFragment(cl, k);
        if !ok {
          return;
        }
        t, ulen := PutPair(cl, ncl, k, tlen, t, ulen);
        cl := next;
        k := k + ncl;
        if cl >= fs.g.nFatent {
          WrittenFits(cltbl[..], chain, k, tlen, t, ulen);
          return;
        }
      }
    }

    /** One pair goes into the table if there is room left for it. */
    method PutPair(top: nat, ncl: nat, ghost k: nat, tlen: nat, t0: nat, ulen0: nat) returns (t: nat, ulen: nat)
      requires cltbl != null && Written(cltbl[..], chain, k, tlen, t0, ulen0)
      requires LinkMap.IsFragment(chain, k, k + ncl) && top == chain[k]
      modifies cltbl
      ensures Written(cltbl[..], chain, k + ncl, tlen, t, ulen)
    {
      hide Written, LinkMap.IsFragment;
      ghost var before := cltbl[..];
      WrittenFits(before, chain, k, tlen, t0, ulen0);
      t, ulen := t0, ulen0 + 2;
      if ulen <= tlen {
        cltbl[t], cltbl[t + 1] := ncl, top;
        t := t + 2;
      }
      WrittenNext(before, cltbl[..], chain, k, k + ncl, tlen, t0, ulen0, top, ncl);
    }

    method NextFragment(top: nat, ghost k: nat) returns (ok: bool, ncl: nat, next: nat)
      requires Ready() && err == Ok && k < |chain| && top == chain[k]
      modifies fs`disk, fs`wflag, fs`winsect, fs.win
      ensures Ready() && Contents() == old(Contents()) && Snap() == old(Snap())
      ensures if ok then FragmentEnds(fs.Fat(), chain, k, k + ncl, next) else !EndsPlainly(fs.Fat(), chain)
      ensures ok ==> LinkMap.IsFragment(chain, k, k + ncl)
      ensures ok ==> (next < fs.g.nFatent <==> k + ncl < |chain|) && (k + ncl < |chain| ==> next == chain[k + ncl])
      ensures ok && k + ncl == |chain| ==> EndsPlainly(fs.Fat(), chain)
    {
      hide Core, Contents, View, Snap, FileSystem.Valid, FileSystem.Store, IsLayout, Capacity;
      ok, ncl, next := Fragment(top, k);
    }

    // ---------------------------------------------------------------- putting the file on record

    /** The directory entry gets archive bit, first cluster, size and time, through the window. */
    method PutEntry(tm: nat)
      requires Core() && !dirty && tm <= MAX_DWORD
      requires IsHome(fs.g, fs.Fat(), chain, dirSect) && dirOfs + DirTable.SZDIRE <= fs.g.ss
      modifies fs`disk, fs`wflag, fs`winsect, fs.win
      ensures Core() && Contents() == old(Contents()) && fs.Fat() == old(fs.Fat())
      ensures fs.Store() == old(fs.Store())[dirSect := fs.Store()[dirSect]]
      ensures Recorded() == FileEntry.Updated(fs.g.t, old(Recorded()), sclust, objsize, tm)
    {
      hide FileBytes, Table, FileSystem.Valid, FileSystem.Store, Capacity, Owns, IsLayout, FileEntry.Updated,
          DirTable.WithEntry;
      AreaBounds(fs.g);
      ghost var was := fs.Store();
      fs.MoveWindow(dirSect);
      var e := FileEntry.Updated(fs.g.t, fs.win[dirOfs..dirOfs + DirTable.SZDIRE], sclust, objsize, tm);
      DirTable.StoreEntry(fs, dirSect, dirOfs, e);
      EntryThere(was[dirSect], dirOfs, e);
      EditedElsewhere(fs.g, was, dirSect, fs.Store()[dirSect], chain, objsize);
    }

    /** sync_fs leaves the file as it is, if the allocation hints do not lie on the table. */
    method SyncVolume()
      requires Core() && !dirty
      modifies fs, fs.win
      ensures fs.Valid() && fs.disk == fs.Store()
      ensures Harmless() ==>
                Core() && Contents() == old(Contents()) && fs.Fat() == old(fs.Fat())
      ensures forall s :: 0 <= s < fs.g.nsect && s != fs.g.volbase + 1 ==> fs.Store()[s] == old(fs.Store())[s]
    {
      hide FileBytes, Table, FileSystem.Store, Capacity, IsLayout, FsInfo.Build;
      ghost var was := fs.Store();
      AreaBounds(fs.g);
      fs.SyncFs();
      if Harmless() && fs.Store() != was {
        EditedElsewhere(fs.g, was, fs.g.volbase + 1, fs.Store()[fs.g.volbase + 1], chain, objsize);
      }
    }

    /** No allocation hints are kept, or the sector they go to lies before the table. */
    predicate Harmless() {
      fs.fsiDisabled || fs.g.volbase + 1 < fs.g.fatbase
    }

    /**
     f_sync. Afterwards the volume holds the file without the help of the buffer: by the entry and the table it has
     these clusters and this size, and the bytes in them are the contents.
     */
    method Sync(tm: nat)
      requires Valid() && Settled() && tm <= MAX_DWORD
      modifies this`dirty, this`modified, fs, fs.win
      ensures fs.Valid() && !modified && (old(modified) ==> fs.disk == fs.Store())
      ensures Harmless() ==>
                && Valid() && Settled() && !dirty && Contents() == old(Contents()) && fs.Fat() == old(fs.Fat())
                && FileOn(fs.g, fs.Store(), Recorded(), chain, objsize)
                && FileBytes(fs.g, fs.Store(), chain, FileEntry.Size(Recorded())) == Contents()
                && Recorded() == (if old(modified) then FileEntry.Updated(fs.g.t, old(Recorded()), sclust, objsize, tm)
                                  else old(Recorded()))
      ensures forall s :: Aside(s) ==> fs.Store()[s] == old(fs.Store())[s]
    {
      hide Core, Ready, Contents, Table, FileSystem.Valid, FileSystem.Store, Owns, FileEntry.Updated, FileOn, FileBytes,
          FileEntry.Clust, FileEntry.Size, Harmless, IsHome;
      if modified {
        ghost var was := Recorded();
        WriteOut(tm);
        if Harmless() { EntryReads(was, tm); }
        ClearModified();
      }
      if Harmless() { OnRecord(); }
    }

    method WriteOut(tm: nat)
      requires Valid() && IsHome(fs.g, fs.Fat(), chain, dirSect) && dirOfs + DirTable.SZDIRE <= fs.g.ss
          && tm <= MAX_DWORD
      modifies this`dirty, fs, fs.win
      ensures fs.Valid() && fs.disk == fs.Store()
      ensures Harmless() ==>
                && Valid() && !dirty && Contents() == old(Contents()) && fs.Fat() == old(fs.Fat())
                && IsHome(fs.g, fs.Fat(), chain, dirSect)
                && Recorded() == FileEntry.Updated(fs.g.t, old(Recorded()), sclust, objsize, tm)
      ensures forall s :: Aside(s) ==> fs.Store()[s] == old(fs.Store())[s]
    {
      hide View, Contents, FileBytes, Table, FileSystem.Valid, FileSystem.Store, Capacity, Owns, IsLayout, Grows,
          FileEntry.Updated, FileSector, Geometry.ClusterIx, Chains.NoOnes, Harmless;
      AreaBounds(fs.g);
      Flush();
      FlushKept(old(Snap()), Snap());
      PutEntry(tm);
      SyncVolume();
    }

    /** An entry that records first cluster and size as they are gives the file, if the buffer is clean. */
    lemma OnRecord()
      requires Valid() && Settled() && !modified
      ensures FileOn(fs.g, fs.Store(), Recorded(), chain, objsize) && !dirty
      ensures FileBytes(fs.g, fs.Store(), chain, FileEntry.Size(Recorded())) == Contents()
    {
      hide FileBytes, Table, FileSystem.Valid, FileSystem.Store, Capacity, FileEntry.Clust, FileEntry.Size;
    }

    /** A sector with no part in the file, its entry, the table and the hints. */
    ghost predicate Aside(s: int)
      reads this`chain
      requires fs.g.csize > 0
    {
      && 0 <= s < fs.g.nsect && s != dirSect && s != fs.g.volbase + 1 && !(fs.g.fatbase <= s < fs.g.FatEnd())
      && !Owns(fs.g, chain, s)
    }

    method ClearModified()
      requires fs.Valid()
      modifies this`modified
      ensures fs.Valid() && !modified
      ensures old(Valid() && IsHome(fs.g, fs.Fat(), chain, dirSect)) ==>
                Valid() && Contents() == old(Contents()) && fs.Fat() == old(fs.Fat()) && fs.Store() == old(fs.Store())
    {
      hide FileBytes, Table, FileSystem.Valid, FileSystem.Store, Capacity, Owns, IsLayout, FileSector,
          Geometry.ClusterIx;
      modified := false;
    }

    /** What the entry records after it was put. */
    lemma EntryReads(e: Entry, tm: nat)
      requires Core() && tm <= MAX_DWORD
      ensures var r := FileEntry.Updated(fs.g.t, e, sclust, objsize, tm);
              FileEntry.Clust(fs.g.t, r) == sclust && FileEntry.Size(r) == objsize
    {
      hide FileEntry.Updated, FileEntry.Clust, FileEntry.Size;
      if chain != [] { ChainBounds(fs.g, fs.Fat(), chain); }
      FileEntry.UpdatedReads(fs.g.t, e, sclust, objsize, tm);
    }

    lemma FlushKept(a: Snapshot, b: Snapshot)
      requires fs.Valid() && fs.g.IsDisk(a.store) && fs.g.IsDisk(b.store) && Grows(fs.g, a, b)
          && IsLayout(fs.g, b.chain)
      requires IsHome(fs.g, a.fat, a.chain, dirSect)
      ensures IsHome(fs.g, b.fat, b.chain, dirSect) && a.store[dirSect] == b.store[dirSect]
      ensures KeepsOthers(fs.g, b.chain, a.store, b.store)
    {
      HomeStays(fs.g, a, b, dirSect);
    }

    // ---------------------------------------------------------------- whole runs

    ghost function Model(): ByteArray
      reads this, buf, fs, fs.win
      requires Core()
    {
      ByteArray(Contents(), fptr)
    }

    /** Where the link map ends, the file ends, too. */
    lemma MapEnd(p: nat)
      requires Core() && Covered() && p <= Capacity(fs.g, chain)
      ensures MapReaches(p) <==> cltbl == null || p < Capacity(fs.g, chain)
      ensures p == 0 || MapReaches(p - 1)
    {
      hide Core, Capacity, Geometry.ClusterIx, LinkMap.Expand, LinkMap.Terminated, IsLayout;
      HasPosition(fs.g, chain, p);
      if p > 0 { HasPosition(fs.g, chain, p - 1); }
    }

    method Serve(req: Request) returns (rep: Reply)
      requires Valid() && err == Ok && Covered()
      requires req.WriteReq? ==> |req.data| <= MAX_DWORD
      modifies this`sclust, this`clust, this`chain, this`sect, this`dirty, this`fptr, this`objsize, this`modified,
          this`err, buf, fs, fs.win
      ensures Valid() && err == Ok && Covered() && Rights() == old(Rights())
      ensures Serves(Rights(), Chains.Full(fs.Fat()), old(Model()), req, rep, Model())
      ensures Grows(fs.g, old(Snap()), Snap()) && (old(Settled()) ==> Settled())
    {
      hide Valid, Covered, Rights, Serves, Grows, Chains.Full, Snap, Model, Settled;
      match req {
        case WriteReq(data) =>
          rep := ServeWrite(data);
        case ReadReq(len) =>
          rep := ServeRead(len);
        case SeekReq(ofs) =>
          rep := ServeSeek(ofs);
      }
    }

    /** Whether the entry still records the file after an operation that leaves the flag unset. */
    lemma KeepsSettled(was: Snapshot, d: bool, m: bool, size: nat, first: nat)
      requires Core() && fs.g.IsDisk(was.store) && |was.fat| == fs.g.nFatent && Grows(fs.g, was, Snap())
      requires !modified ==> !m && objsize == size && sclust == first && (dirty ==> d)
      ensures SettledAt(was, d, m, size, first) ==> Settled()
    {
      hide FileEntry.Clust, FileEntry.Size, Grows, Table;
      if SettledAt(was, d, m, size, first) { HomeStays(fs.g, was, Snap(), dirSect); }
    }

    ghost predicate SettledAt(was: Snapshot, d: bool, m: bool, size: nat, first: nat)
      requires fs.g.Valid() && fs.g.IsDisk(was.store) && |was.fat| == fs.g.nFatent
    {
      && IsHome(fs.g, was.fat, was.chain, dirSect) && dirOfs + DirTable.SZDIRE <= fs.g.ss
      && (!m ==> var e := EntryAt(fs.g, was.store, dirSect, dirOfs);
                 !d && FileEntry.Clust(fs.g.t, e) == first && FileEntry.Size(e) == size)
    }

    method ServeWrite(data: seq<byte>) returns (rep: Reply)
      requires Valid() && err == Ok && Covered() && |data| <= MAX_DWORD
      modifies this`sclust, this`clust, this`chain, this`sect, this`dirty, this`fptr, this`objsize, this`modified,
          this`err, buf, fs, fs.win
      ensures Valid() && err == Ok && Covered() && Rights() == old(Rights())
      ensures Serves(Rights(), Chains.Full(fs.Fat()), old(Model()), WriteReq(data), rep, Model())
      ensures Grows(fs.g, old(Snap()), Snap()) && (old(Settled()) ==> Settled())
    {
      hide Core, Ready, View, Contents, FileSystem.Valid, FileSystem.Store, Capacity, Grows, Splice, MapReaches,
          Chains.Full, LinkMap.Expand, LinkMap.Terminated, Clipped;
      NoSplice(Contents(), fptr, data);
      var res, n := Write(data);
      MapEnd(fptr);
      KeepsSettled(old(Snap()), old(dirty), old(modified), old(objsize), old(sclust));
      rep := if res == Ok then Count(n) else Refused;
    }

    method ServeRead(len: nat) returns (rep: Reply)
      requires Valid() && err == Ok && Covered()
      modifies this`clust, this`sect, this`dirty, this`fptr, this`err, buf, fs, fs.win
      ensures Valid() && err == Ok && Covered() && Rights() == old(Rights())
      ensures Serves(Rights(), Chains.Full(fs.Fat()), old(Model()), ReadReq(len), rep, Model())
      ensures Grows(fs.g, old(Snap()), Snap()) && (old(Settled()) ==> Settled())
    {
      hide Core, Ready, View, Contents, FileSystem.Valid, FileSystem.Store, Capacity, Grows, MapReaches, Chains.Full,
          LinkMap.Expand, LinkMap.Terminated;
      var res, out := Read(len);
      MapEnd(fptr);
      KeepsSettled(old(Snap()), old(dirty), old(modified), old(objsize), old(sclust));
      rep := if res == Ok then Data(out) else Refused;
    }

    method ServeSeek(ofs: nat) returns (rep: Reply)
      requires Valid() && err == Ok && Covered()
      modifies this`sclust, this`clust, this`chain, this`sect, this`dirty, this`fptr, this`objsize, this`modified,
          this`err, buf, fs, fs.win
      ensures Valid() && err == Ok && Covered() && Rights() == old(Rights())
      ensures Serves(Rights(), Chains.Full(fs.Fat()), old(Model()), SeekReq(ofs), rep, Model())
      ensures Grows(fs.g, old(Snap()), Snap()) && (old(Settled()) ==> Settled())
    {
      hide Core, Ready, View, Contents, FileSystem.Valid, FileSystem.Store, Capacity, Grows, MapReaches, Chains.Full,
          LinkMap.Expand, LinkMap.Terminated;
      var _ := Seek(ofs);
      MapEnd(fptr);
      if objsize == old(objsize) {
        PrefixSame(old(Contents()), Contents());
      }
      KeepsSettled(old(Snap()), old(dirty), old(modified), old(objsize), old(sclust));
      rep := Done;
    }

    lemma SoundOn(was: Snapshot)
      requires Core() && fs.g.IsDisk(was.store) && Grows(fs.g, was, Snap()) && IsFile(was)
      ensures Chains.Sound(was.fat) ==> Chains.Sound(fs.Fat())
    {
      hide Grows, Chains.Sound;
      if Chains.Sound(was.fat) { GrowsKeepsSound(fs.g, was, Snap()); }
    }

    lemma HasChain()
      requires Core()
      ensures IsFile(Snap())
    {
    }

    /**
     Any sequence of writes, reads and seeks on an open file is answered as a plain byte array with a position in it
     would answer. All other files are left alone, the table stays a set of disjoint, acyclic, end-marked chains, and
     an exact free count stays exact. `states` are the array's states in between, `snaps` those of the volume.
     */
    method ServeAll(reqs: seq<Request>) returns (reps: seq<Reply>, ghost states: seq<ByteArray>,
        ghost snaps: seq<Snapshot>)
      requires Valid() && err == Ok && Covered()
      requires forall i :: 0 <= i < |reqs| && reqs[i].WriteReq? ==> |reqs[i].data| <= MAX_DWORD
      modifies this`sclust, this`clust, this`chain, this`sect, this`dirty, this`fptr, this`objsize, this`modified,
          this`err, buf, fs, fs.win
      ensures Valid() && err == Ok && Covered() && |reps| == |reqs| && |states| == |snaps| == |reqs| + 1
      ensures states[0] == old(Model()) && states[|reqs|] == Model() && snaps[|reqs|] == Snap()
      ensures forall i :: 0 <= i < |reqs| ==>
                Serves(old(Rights()), Chains.Full(snaps[i + 1].fat), states[i], reqs[i], reps[i], states[i + 1])
      ensures Grows(fs.g, old(Snap()), Snap()) && (old(Settled()) ==> Settled())
      ensures old(Chains.Sound(fs.Fat())) ==> Chains.Sound(fs.Fat())
      ensures old(Counted(Snap())) ==> Counted(Snap())
    {
      hide Core, Ready, View, Contents, FileSystem.Valid, FileSystem.Store, Capacity, Grows, Serves, Covered, Rights,
          Chains.Full, Chains.Sound, Counted, IsFile, Settled;
      NothingGrows(fs.g, Snap());
      HasChain();
      reps := [];
      states, snaps := [Model()], [Snap()];
      while |reps| < |reqs|
        invariant Valid() && err == Ok && Covered() && Rights() == old(Rights())
        invariant |reps| <= |reqs| && |states| == |snaps| == |reps| + 1
        invariant states[0] == old(Model()) && states[|reps|] == Model() && snaps[|reps|] == Snap()
        invariant forall i :: 0 <= i < |reps| ==>
                    Serves(old(Rights()), Chains.Full(snaps[i + 1].fat), states[i], reqs[i], reps[i], states[i + 1])
        invariant Grows(fs.g, old(Snap()), Snap()) && (old(Settled()) ==> Settled())
      {
        ghost var mid := Snap();
        var rep := Serve(reqs[|reps|]);
        GrowsTwice(fs.g, old(Snap()), mid, Snap());
        reps := reps + [rep];
        states, snaps := states + [Model()], snaps + [Snap()];
      }
      CountedOn(fs.g, old(Snap()), Snap());
      SoundOn(old(Snap()));
    }

    /**
     Any such run and an f_sync behind it: what is on the volume then, without the buffer, under the cluster and the
     size the directory entry records, are the bytes of the array the run has led to.
     */
    method ServeAllAndSync(reqs: seq<Request>, tm: nat) returns (reps: seq<Reply>, ghost states: seq<ByteArray>,
        ghost snaps: seq<Snapshot>)
      requires Valid() && err == Ok && Covered() && Settled() && tm <= MAX_DWORD
      requires forall i :: 0 <= i < |reqs| && reqs[i].WriteReq? ==> |reqs[i].data| <= MAX_DWORD
      modifies this`sclust, this`clust, this`chain, this`sect, this`dirty, this`fptr, this`objsize, this`modified,
          this`err, buf, fs, fs.win
      ensures |reps| == |reqs| && |states| == |snaps| == |reqs| + 1 && states[0] == old(Model())
      ensures forall i :: 0 <= i < |reqs| ==>
                Serves(old(Rights()), Chains.Full(snaps[i + 1].fat), states[i], reqs[i], reps[i], states[i + 1])
      ensures Harmless() ==>
                var bytes := states[|reqs|].bytes;
                && Valid() && Settled() && !modified
                && FileOn(fs.g, fs.Store(), Recorded(), chain, |bytes|)
                && FileBytes(fs.g, fs.Store(), chain, |bytes|) == bytes
    {
      hide Core, Ready, View, Contents, FileSystem.Valid, FileSystem.Store, Capacity, Serves, Covered, Rights,
          Harmless, FileBytes, Snap, Chains.Full, Grows, Chains.Sound, Counted;
      reps, states, snaps := ServeAll(reqs);
      hide Settled, Model;
      assert states[|reqs|].bytes == Contents() by { ModelIs(); }
      Sync(tm);
      if Harmless() { RecordedSize(); }
    }

    lemma ModelIs()
      requires Core()
      ensures Model().bytes == Contents()
    {
    }

    lemma RecordedSize()
      requires Valid() && Settled() && FileOn(fs.g, fs.Store(), Recorded(), chain, objsize)
      ensures FileEntry.Size(Recorded()) == objsize == |Contents()|
    {
    }
  }

  /** A file put on record and opened again has the same bytes. */
  method Reopen(f: File, canRead: bool, canWrite: bool) returns (again: File)
    requires f.Valid() && f.Settled() && !f.modified
    modifies f.fs`disk, f.fs`wflag, f.fs`winsect, f.fs.win
    ensures again.Valid() && again.Settled() && again.fs == f.fs && again.Contents() == old(f.Contents())
    ensures f.fs.Store() == old(f.fs.Store())
  {
    hide Table, FileSystem.Valid, FileSystem.Store, FileBytes, Capacity, Owns, Chains.NoOnes, FileEntry.Clust,
        FileEntry.Size;
    f.OnRecord();
    f.fs.MoveWindow(f.dirSect);
    again := new File.Open(f.fs, f.dirSect, f.dirOfs, false, canRead, canWrite, f.chain);
  }
}
