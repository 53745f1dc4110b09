/** A mounted volume: the sector window and, on top of it, the entries of the table (ff.c, struct FATFS). */
module FatFs {
  import opened Arith
  import opened Bytes
  import opened FatEntries
  import opened FatVolume
  import opened FileData
  import Chains = FatChains
  import FsInfo

  datatype FResult = Ok | IntErr | Denied | NotEnoughCore

  class FileSystem {
    const g: Geometry
    const win: array<byte>
    var disk: Disk
    var winsect: nat
    var wflag: bool
    var lastClst: nat
    var freeClst: nat
    const fsiDisabled: bool  // bit 7 of fsi_flag: the volume keeps no FSINFO sector
    var fsiDirty: bool       // bit 0 of fsi_flag

    ghost predicate Valid()
      reads this, win
      ensures Valid() ==> g.Valid()
    {
      && g.Valid() && g.IsDisk(disk)
      && win.Length == g.ss
      && (winsect < g.nsect || (winsect == MAX_DWORD && !wflag))
      && (!wflag && winsect < g.nsect ==> win[..] == disk[winsect])
      && (wflag ==> !g.InMirror(winsect))
      && lastClst <= MAX_DWORD && freeClst <= MAX_DWORD
      && (!fsiDisabled ==> g.t == Fat32)
    }

    /** The sectors as they would be had every edit of the window been written at once, to all copies of the table. */
    ghost function Store(): (d: Disk)
      reads this, win
      requires Valid()
      ensures g.IsDisk(d)
    {
      if wflag then WriteThrough(g, disk, winsect, win[..]) else disk
    }

    ghost function Fat(): seq<nat>
      reads this, win
      requires Valid()
    {
      Table(g, Store())
    }

    /** The window holds sector `s`, up to date. */
    ghost predicate Shows(s: int)
      reads this, win
      requires Valid()
    {
      0 <= s < g.nsect && winsect == s && win[..] == Store()[s]
    }

    /** The volume just mounted on `d`: find_volume invalidates the window and the allocation hints. */
    constructor Mount(g: Geometry, d: Disk, hinted: bool)
      requires g.Valid() && g.IsDisk(d) && (hinted ==> g.t == Fat32)
      ensures Valid() && fresh(win) && this.g == g && Store() == d && fsiDisabled == !hinted
    {
      this.g := g;
      win := new byte[g.ss](_ => 0);
      disk := d;
      winsect, wflag := MAX_DWORD, false;
      lastClst, freeClst := MAX_DWORD, MAX_DWORD;
      fsiDisabled, fsiDirty := !hinted, false;
    }

    /** disk_write of one sector. */
    method DiskWrite(data: seq<byte>, sector: nat)
      requires g.Valid() && g.IsDisk(disk) && sector < g.nsect && |data| == g.ss
      modifies this`disk
      ensures disk == old(disk)[sector := data]
    {
      disk := disk[sector := data];
    }

    /** disk_write of `cc` sectors of the data area, past the window. */
    method WriteData(data: seq<byte>, sect: nat, cc: nat)
      requires Valid() && g.FatEnd() <= sect && sect + cc <= g.nsect && |data| == cc * g.ss
      requires !(sect <= winsect < sect + cc)
      modifies this`disk
      ensures Valid() && Store() == WriteRun(g, old(Store()), sect, cc, data) && Fat() == old(Fat())
    {
      ghost var d := Store();
      if wflag {
        RunCommutes(g, disk, winsect, win[..], sect, cc, data);
      }
      disk := WriteRun(g, disk, sect, cc, data);
      RunOutsideFat(g, d, sect, cc, data);
    }

    /** disk_read of `cc` sectors of the data area, past the window. */
    method ReadData(sect: nat, cc: nat) returns (data: seq<byte>)
      requires Valid() && g.FatEnd() <= sect && sect + cc <= g.nsect
      requires !(sect <= winsect < sect + cc)
      ensures data == ReadRun(g, Store(), sect, cc)
    {
      AreaBounds(g);
      data := ReadRun(g, disk, sect, cc);
    }

    method ReadDataSector(sect: nat) returns (data: seq<byte>)
      requires Valid() && g.FatEnd() <= sect < g.nsect && sect != winsect
      ensures data == Store()[sect]
    {
      AreaBounds(g);
      data := disk[sect];
    }

    method WriteDataSector(data: seq<byte>, sect: nat)
      requires Valid() && g.FatEnd() <= sect < g.nsect && |data| == g.ss && sect != winsect
      modifies this`disk
      ensures Valid() && Store() == old(Store())[sect := data] && Fat() == old(Fat())
    {
      AreaBounds(g);
      ghost var d := Store();
      DiskWrite(data, sect);
      EditElsewhere(g, d, sect, data);
    }

    method SyncWindow()
      requires Valid()
      modifies this`disk, this`wflag
      ensures Valid() && !wflag
      ensures Store() == old(Store()) && disk == Store()
    {
      if wflag {
        var wsect := winsect;
        DiskWrite(win[..], wsect);
        wflag := false;
        if wsect >= g.fatbase && wsect - g.fatbase < g.fsize {
          AreaBounds(g);
          var nf := g.nFats;
          while nf >= 2
            invariant 1 <= nf <= g.nFats && !wflag
            invariant wsect == if nf == g.nFats then winsect else winsect + g.fsize
            invariant disk == if nf == g.nFats then old(disk)[winsect := win[..]] else old(Store())
            invariant g.IsDisk(disk) && disk[winsect] == win[..]
          {
            wsect := wsect + g.fsize;
            DiskWrite(win[..], wsect);
            nf := nf - 1;
          }
        }
      }
    }

    method MoveWindow(sector: nat)
      requires Valid() && sector < g.nsect
      modifies this`disk, this`wflag, this`winsect, win
      ensures Valid() && Store() == old(Store())
      ensures winsect == sector && win[..] == Store()[sector]
      ensures old(winsect) == sector ==> wflag == old(wflag)
      ensures old(winsect) != sector ==> !wflag
    {
      if sector != winsect {
        SyncWindow();
        forall i | 0 <= i < win.Length {
          win[i] := disk[sector][i];
        }
        assert win[..] == disk[sector];
        winsect := sector;
      }
    }

    /** One byte of the window is stored and the window marked dirty. */
    method Poke(o: nat, b: byte)
      requires Valid() && o < g.ss && winsect < g.nsect && !g.InMirror(winsect)
      modifies this`wflag, win
      ensures Valid() && wflag
      ensures Store() == WriteThrough(g, old(Store()), winsect, old(Store())[winsect][o := b])
      ensures win[..] == Store()[winsect]
    {
      ghost var before := win[..];
      win[o] := b;
      wflag := true;
      assert win[..] == before[o := b];
    }

    /** get_fat. Out-of-range cluster numbers read as 1, the internal-error value. */
    method GetFat(clst: nat) returns (val: nat)
      requires Valid()
      modifies this`disk, this`wflag, this`winsect, win
      ensures Valid() && Store() == old(Store())
      ensures val == if g.InRange(clst) then Fat()[clst] else 1
      ensures winsect == old(winsect) || g.InFat(winsect)
    {
      if clst < 2 || clst >= g.nFatent {
        return 1;
      }
      hide Valid, Store, Table, WriteThrough, FlatFat, Geometry.Valid;
      TableAt(g, Store(), clst);
      match g.t {
        case Fat12 =>
          var wc := FetchPair(clst + clst / 2);
          val := if clst % 2 == 1 then wc / 16 else wc % 0x1000;
        case Fat16 =>
          val := FetchWord(clst);
        case Fat32 =>
          val := FetchDword(clst);
          val := val % 0x1000_0000;
      }
    }

    /** Two neighbouring bytes, which may lie in two sectors. */
    method FetchPair(i: nat) returns (val: nat)
      requires Valid() && i + 2 <= g.fsize * g.ss
      modifies this`disk, this`wflag, this`winsect, win
      ensures Valid() && Store() == old(Store())
      ensures val == LdWord(FlatFat(g, Store()), i)
      ensures g.InFat(winsect)
    {
      hide Valid, Store, FlatFat, Geometry.Valid;
      var bc := i;
      var lo := Fetch(bc);
      bc := bc + 1;
      var hi := Fetch(bc);
      val := lo as int + 0x100 * hi as int;
    }

    method FetchWord(clst: nat) returns (val: nat)
      requires Valid() && clst * 2 + 2 <= g.fsize * g.ss
      modifies this`disk, this`wflag, this`winsect, win
      ensures Valid() && Store() == old(Store())
      ensures val == LdWord(FlatFat(g, Store()), clst * 2)
      ensures g.InFat(winsect)
    {
      PairInSector(g, 2, clst);
      MoveWindow(g.fatbase + clst / (g.ss / 2));
      val := LdWord(win[..], clst * 2 % g.ss);
      FlatWord(g, Store(), clst * 2);
    }

    method FetchDword(clst: nat) returns (val: nat)
      requires Valid() && clst * 4 + 4 <= g.fsize * g.ss
      modifies this`disk, this`wflag, this`winsect, win
      ensures Valid() && Store() == old(Store())
      ensures val == LdDword(FlatFat(g, Store()), clst * 4)
      ensures g.InFat(winsect) && winsect == g.SectorOf(clst * 4)
      ensures clst * 4 % g.ss + 4 <= g.ss
    {
      PairInSector(g, 4, clst);
      MoveWindow(g.fatbase + clst / (g.ss / 4));
      val := LdDword(win[..], clst * 4 % g.ss);
      FlatDword(g, Store(), clst * 4);
    }

    /** The byte at flat position `i` of the table, brought into the window. */
    method Fetch(i: nat) returns (b: byte)
      requires Valid() && i < g.fsize * g.ss
      modifies this`disk, this`wflag, this`winsect, win
      ensures Valid() && Store() == old(Store())
      ensures b == FlatFat(g, Store())[i]
      ensures g.InFat(winsect) && winsect == g.SectorOf(i)
    {
      FlatFatAt(g, Store(), i);
      MoveWindow(g.fatbase + i / g.ss);
      b := win[i % g.ss];
    }

    /** put_fat. The table changes at one entry, in every copy; no sector outside the table area does. */
    method PutFat(clst: nat, val: nat) returns (res: FResult)
      requires Valid() && val <= MAX_DWORD
      modifies this`disk, this`wflag, this`winsect, win
      ensures Valid()
      ensures !g.InRange(clst) ==> res == IntErr && Store() == old(Store())
      ensures g.InRange(clst) ==> res == Ok && g.InFat(winsect)
      ensures g.InRange(clst) ==> Fat() == old(Fat())[clst := Cut(g.t, val)]
      ensures TableEdit(g, old(Store()), Store()) && ReservedKept(g, old(Store()), Store())
    {
      if clst < 2 || clst >= g.nFatent {
        return IntErr;
      }
      TableAt(g, Store(), clst);
      match g.t {
        case Fat12 => PutFat12(clst, val);
        case Fat16 => PutFat16(clst, val);
        case Fat32 => PutFat32(clst, val);
      }
      EncodeTable(g, old(Store()), Store(), clst, val);
      EncodeReserved(g, old(Store()), Store(), clst, val);
      res := Ok;
    }

    method PutFat12(clst: nat, val: nat)
      requires Valid() && val <= MAX_DWORD && g.t == Fat12 && clst + clst / 2 + 2 <= g.fsize * g.ss
      modifies this`disk, this`wflag, this`winsect, win
      ensures Valid() && g.InFat(winsect)
      ensures FlatFat(g, Store()) == Encode(Fat12, old(FlatFat(g, Store())), clst, val)
      ensures TableEdit(g, old(Store()), Store())
    {
      var bc := clst + clst / 2;
      var p := Fetch(bc);
      PokeFat(bc, StoredByte(Fat12, clst, val, 0, p));
      bc := bc + 1;
      p := Fetch(bc);
      PokeFat(bc, StoredByte(Fat12, clst, val, 1, p));
    }

    method PutFat16(clst: nat, val: nat)
      requires Valid() && val <= MAX_DWORD && g.t == Fat16 && clst * 2 + 2 <= g.fsize * g.ss
      modifies this`disk, this`wflag, this`winsect, win
      ensures Valid() && g.InFat(winsect)
      ensures FlatFat(g, Store()) == Encode(Fat16, old(FlatFat(g, Store())), clst, val)
      ensures TableEdit(g, old(Store()), Store())
    {
      PairInSector(g, 2, clst);
      MoveWindow(g.fatbase + clst / (g.ss / 2));
      PokeFatWord(clst * 2, val);
    }

    method PutFat32(clst: nat, val: nat)
      requires Valid() && val <= MAX_DWORD && g.t == Fat32 && clst * 4 + 4 <= g.fsize * g.ss
      modifies this`disk, this`wflag, this`winsect, win
      ensures Valid() && g.InFat(winsect)
      ensures FlatFat(g, Store()) == Encode(Fat32, old(FlatFat(g, Store())), clst, val)
      ensures TableEdit(g, old(Store()), Store())
    {
      hide Valid, Store, FlatFat, TableEdit, Geometry.Valid, Encode, LdDword, Byte;
      var was := FetchDword(clst);
      var v := val % 0x1000_0000 + was / 0x1000_0000 * 0x1000_0000;
      KeepTopNibble(FlatFat(g, Store()), clst, val, v);
      PokeFatDword(clst * 4, v);
    }

    /** st_dword into the window at flat position `i` of the table. */
    method PokeFatDword(i: nat, v: nat)
      requires Valid() && i + 3 < g.fsize * g.ss && i % g.ss + 3 < g.ss
      requires winsect == g.SectorOf(i)
      modifies this`wflag, win
      ensures Valid() && g.InFat(winsect)
      ensures FlatFat(g, Store()) == old(FlatFat(g, Store()))
        [i := Byte(v, 0)][i + 1 := Byte(v, 1)][i + 2 := Byte(v / 0x1_0000, 0)][i + 3 := Byte(v / 0x1_0000, 1)]
      ensures TableEdit(g, old(Store()), Store())
    {
      hide Store, FlatFat, TableEdit, Geometry.Valid;
      NextInSector(i, g.ss);
      NextInSector(i + 1, g.ss);
      PokeFatWord(i, v);
      ghost var half := Store();
      PokeFatWord(i + 2, v / 0x1_0000);
      TableEditTwice(g, old(Store()), half, Store());
    }

    /** st_word into the window at flat position `i` of the table. */
    method PokeFatWord(i: nat, v: nat)
      requires Valid() && i + 1 < g.fsize * g.ss && i % g.ss + 1 < g.ss
      requires winsect == g.SectorOf(i)
      modifies this`wflag, win
      ensures Valid() && g.InFat(winsect)
      ensures FlatFat(g, Store()) == old(FlatFat(g, Store()))[i := Byte(v, 0)][i + 1 := Byte(v, 1)]
      ensures TableEdit(g, old(Store()), Store())
    {
      hide Store, FlatFat, TableEdit, Geometry.Valid;
      NextInSector(i, g.ss);
      PokeFat(i, v % 0x100);
      ghost var half := Store();
      PokeFat(i + 1, v / 0x100 % 0x100);
      TableEditTwice(g, old(Store()), half, Store());
    }

    /** One byte of the table is stored, at its flat position `i`; the window already shows its sector. */
    method PokeFat(i: nat, b: byte)
      requires Valid() && i < g.fsize * g.ss
      requires winsect == g.SectorOf(i)
      modifies this`wflag, win
      ensures Valid() && g.InFat(winsect)
      ensures FlatFat(g, Store()) == old(FlatFat(g, Store()))[i := b]
      ensures TableEdit(g, old(Store()), Store())
    {
      EditIsTableEdit(g, Store(), i, b);
      Poke(i % g.ss, b);
    }

    // ---------------------------------------------------------------- allocation

    /** The allocator's view of the volume. */
    ghost function State(): Chains.Alloc
      reads this, win
      requires Valid()
    {
      Chains.Alloc(Fat(), lastClst, freeClst)
    }

    /** The end-of-chain mark as this volume's table stores it. */
    function Eoc(): nat {
      Cut(g.t, MAX_DWORD)
    }

    /** The cyclic search of create_chain: the first cluster after `scl` whose entry `cs` is 0 or 1; 0 when it came
        round. */
    method SearchFree(scl: nat) returns (ncl: nat, cs: nat)
      requires Valid() && 1 <= scl < g.nFatent
      modifies this`disk, this`wflag, this`winsect, win
      ensures Valid() && Store() == old(Store())
      ensures ncl == Chains.NextLow(Fat(), scl)
      ensures ncl != 0 ==> g.InRange(ncl) && cs == Fat()[ncl]
      ensures winsect == old(winsect) || g.InFat(winsect)
    {
      ghost var fat := Fat();
      ghost var wrapped := false;
      ncl := scl;
      while true
        invariant Valid() && Store() == old(Store()) && Fat() == fat && |fat| == g.nFatent
        invariant Chains.Searched(fat, scl, ncl, wrapped)
        invariant winsect == old(winsect) || g.InFat(winsect)
        invariant wrapped ==> ncl < scl
        decreases !wrapped, g.nFatent - ncl
      {
        ncl := ncl + 1;
        if ncl >= g.nFatent {
          ncl := 2;
          wrapped := true;
          if ncl > scl {
            Chains.NothingFound(fat, scl);
            return 0, 0;
          }
        }
        assert Chains.Ready(fat, scl, ncl, wrapped);
        cs := GetFat(ncl);
        Chains.Advance(fat, scl, ncl, wrapped);
        if cs == 0 || cs == 1 {
          return;
        }
        if ncl == scl {
          return 0, cs;
        }
      }
    }

    /** create_chain: 0 when the volume is full, 1 on an inconsistent table, the cluster that follows `clst`
        otherwise. */
    method CreateChain(clst: nat) returns (ncl: nat)
      requires Valid() && clst <= MAX_DWORD
      modifies this, win
      ensures Valid()
      ensures (State(), ncl) == Chains.Create(old(State()), clst, Eoc())
      ensures TableEdit(g, old(Store()), Store())
      ensures Fat() == old(Fat()) ==> Store() == old(Store())
      ensures Fat() != old(Fat()) ==> g.InFat(winsect)
      ensures fsiDirty == (old(fsiDirty) || Fat() != old(Fat()))
      ensures winsect == old(winsect) || g.InFat(winsect)
    {
      var scl;
      if clst == 0 {
        scl := lastClst;
        if scl == 0 || scl >= g.nFatent {
          scl := 1;
        }
      } else {
        var cs := GetFat(clst);
        if cs < 2 {
          return 1;
        }
        if cs < g.nFatent {
          return cs;
        }
        scl := clst;
      }
      ncl := Claim(clst, scl);
    }

    method Claim(clst: nat, scl: nat) returns (ncl: nat)
      requires Valid() && 1 <= scl < g.nFatent && (clst == 0 || g.InRange(clst))
      modifies this, win
      ensures Valid()
      ensures (State(), ncl) == Chains.Claim(old(State()), clst, scl, Eoc())
      ensures TableEdit(g, old(Store()), Store())
      ensures Fat() == old(Fat()) ==> Store() == old(Store())
      ensures Fat() != old(Fat()) ==> g.InFat(winsect)
      ensures fsiDirty == (old(fsiDirty) || Fat() != old(Fat()))
      ensures winsect == old(winsect) || g.InFat(winsect)
    {
      hide Table, TableEdit, WriteThrough, Valid;
      NoTableEdit(g, Store());
      var status;
      ncl, status := SearchFree(scl);
      if ncl == 0 {
        return 0;
      }
      if status == 1 {
        return 1;
      }
      Take(clst, ncl);
    }

    /** The rest of create_chain once `ncl` is known to be free. */
    method Take(clst: nat, ncl: nat)
      requires Valid() && g.InRange(ncl) && (clst == 0 || g.InRange(clst))
      modifies this, win
      ensures Valid()
      ensures Fat() == Chains.Link(old(Fat()), clst, ncl, Eoc())
      ensures lastClst == ncl && freeClst == Chains.TakeOne(g.nFatent, old(freeClst))
      ensures TableEdit(g, old(Store()), Store())
      ensures g.InFat(winsect) && fsiDirty
    {
      var _ := PutFat(ncl, MAX_DWORD);
      if clst != 0 {
        ghost var half := Store();
        SmallFits(g.t, ncl);
        var _ := PutFat(clst, ncl);
        TableEditTwice(g, old(Store()), half, Store());
      }
      lastClst := ncl;
      if freeClst < g.nFatent - 2 {
        freeClst := if freeClst == 0 then MAX_DWORD else freeClst - 1;
      }
      fsiDirty := true;
    }

    /** remove_chain: frees clusters from `clst` on, after making `pclst` (if any) the end of its chain. Any table
        will do. */
    method RemoveChain(clst: nat, pclst: nat) returns (res: FResult)
      requires Valid()
      modifies this, win
      ensures Valid() && (res == Ok || res == IntErr)
      ensures (State(), res == Ok) == Chains.Remove(old(State()), clst, pclst, Eoc())
      ensures TableEdit(g, old(Store()), Store())
      ensures fsiDirty == (old(fsiDirty) || freeClst != old(freeClst))
    {
      if clst < 2 || clst >= g.nFatent {
        return IntErr;
      }
      if pclst != 0 {
        res := PutFat(pclst, MAX_DWORD);
        if res != Ok {
          return;
        }
      }
      ghost var half := Store();
      res := FreeFrom(clst);
      TableEditTwice(g, old(Store()), half, Store());
    }

    /** The loop of remove_chain. */
    method FreeFrom(first: nat) returns (res: FResult)
      requires Valid() && g.InRange(first)
      modifies this, win
      ensures Valid() && (res == Ok || res == IntErr)
      ensures (Fat(), freeClst, res == Ok) == Chains.Unlink(old(Fat()), first, old(freeClst))
      ensures lastClst == old(lastClst) && TableEdit(g, old(Store()), Store())
      ensures fsiDirty == (old(fsiDirty) || freeClst != old(freeClst))
    {
      hide Table, TableEdit, WriteThrough, Valid;
      NoTableEdit(g, Store());
      var clst: nat := first;
      ghost var goal := Chains.Unlink(Fat(), first, freeClst);
      while true
        invariant Valid() && g.InRange(clst) && lastClst == old(lastClst)
        invariant Chains.Unlink(Fat(), clst, freeClst) == goal
        invariant freeClst >= old(freeClst) && fsiDirty == (old(fsiDirty) || freeClst != old(freeClst))
        invariant TableEdit(g, old(Store()), Store())
        decreases Chains.Used(Fat())
      {
        var nxt := GetFat(clst);
        if nxt == 0 {
          break;
        }
        if nxt == 1 {
          return IntErr;
        }
        Chains.FreeingUses(Fat(), clst);
        ghost var mid := Store();
        FreeOne(clst);
        TableEditTwice(g, old(Store()), mid, Store());
        clst := nxt;
        if clst >= g.nFatent {
          break;
        }
      }
      res := Ok;
    }

    method FreeOne(clst: nat)
      requires Valid() && g.InRange(clst)
      modifies this, win
      ensures Valid()
      ensures Fat() == old(Fat())[clst := 0] && freeClst == Chains.GiveOne(g.nFatent, old(freeClst))
      ensures lastClst == old(lastClst) && TableEdit(g, old(Store()), Store())
      ensures fsiDirty == (old(fsiDirty) || freeClst != old(freeClst))
    {
      var _ := PutFat(clst, 0);
      if freeClst < g.nFatent - 2 {
        freeClst := freeClst + 1;
        fsiDirty := true;
      }
    }

    // ---------------------------------------------------------------- free clusters, FSINFO

    /** f_getfree on a mounted volume. */
    method GetFree() returns (res: FResult, nclst: nat)
      requires Valid()
      modifies this, win
      ensures Valid() && Store() == old(Store()) && lastClst == old(lastClst)
      ensures old(freeClst) <= g.nFatent - 2 ==> res == Ok && nclst == old(freeClst)
      ensures old(freeClst) > g.nFatent - 2 && g.t != Fat12 ==> res == Ok && nclst == Chains.ZeroEntries(Fat())
      ensures old(freeClst) > g.nFatent - 2 && g.t == Fat12 ==> res == if 1 in Fat()[2..] then IntErr else Ok
      ensures old(freeClst) > g.nFatent - 2 && g.t == Fat12 && res == Ok ==> nclst == Chains.FreeClusters(Fat())
      ensures freeClst == nclst && fsiDirty == (old(fsiDirty) || old(freeClst) > g.nFatent - 2)
    {
      hide Table, TableEdit, WriteThrough, Valid;
      res := Ok;
      if freeClst <= g.nFatent - 2 {
        return Ok, freeClst;
      }
      if g.t == Fat12 {
        res, nclst := CountEntries();
      } else {
        nclst := ScanTable();
      }
      SetFree(nclst);
    }

    method SetFree(n: nat)
      requires Valid() && n <= g.nFatent
      modifies this`freeClst, this`fsiDirty
      ensures Valid() && Store() == old(Store()) && freeClst == n && fsiDirty
    {
      freeClst := n;
      fsiDirty := true;
    }

    /** The FAT12 branch: entry by entry, from cluster 2 on. */
    method CountEntries() returns (res: FResult, nfree: nat)
      requires Valid()
      modifies this`disk, this`wflag, this`winsect, win
      ensures Valid() && Store() == old(Store()) && nfree <= g.nFatent
      ensures res == if 1 in Fat()[2..] then IntErr else Ok
      ensures res == Ok ==> nfree == Chains.FreeClusters(Fat())
    {
      hide Table, TableEdit, WriteThrough, Valid;
      ghost var fat := Fat();
      nfree := 0;
      var clst: nat := 2;
      while clst < g.nFatent
        invariant Valid() && Store() == old(Store()) && Fat() == fat && |fat| == g.nFatent
        invariant 2 <= clst <= g.nFatent && nfree <= clst
        invariant nfree == Chains.FreeClusters(fat[..clst]) && Chains.NoOnes(fat, clst)
      {
        var stat := GetFat(clst);
        Chains.ZerosOfPrefix(fat, clst);
        if stat == 1 {
          Chains.OneFound(fat, clst);
          return IntErr, nfree;
        }
        if stat == 0 {
          nfree := nfree + 1;
        }
        clst := clst + 1;
      }
      Chains.NoOneFound(fat);
      res := Ok;
    }

    /** The FAT16/32 branch: sector by sector, counting every entry of the table. */
    method ScanTable() returns (nfree: nat)
      requires Valid() && g.t != Fat12
      modifies this`disk, this`wflag, this`winsect, win
      ensures Valid() && Store() == old(Store()) && nfree <= g.nFatent
      ensures nfree == Chains.ZeroEntries(Fat())
    {
      hide Table, TableEdit, WriteThrough, Valid, ScanAt;
      ghost var fat := Fat();
      var clst: nat, sect: nat, i: nat, p: nat := g.nFatent, g.fatbase, 0, g.ss;
      ScanStart(g);
      nfree := 0;
      while clst > 0
        invariant Valid() && Store() == old(Store()) && Fat() == fat && |fat| == g.nFatent
        invariant clst <= g.nFatent && nfree <= g.nFatent - clst && nfree == Chains.ZeroEntries(fat[..g.nFatent - clst])
        invariant p + i == g.ss && ScanAt(g, g.nFatent - clst, sect, p)
        invariant i > 0 ==> Shows(sect - 1)
      {
        var zero: bool;
        sect, p, zero := NextEntry(sect, p, g.nFatent - clst);
        i := g.ss - p;
        Chains.ZerosOfPrefix(fat, g.nFatent - clst);
        if zero {
          nfree := nfree + 1;
        }
        clst := clst - 1;
      }
      assert fat[..g.nFatent] == fat;
    }

    /** Looks at entry `k`, after bringing the next sector into the window when the last one is used up. */
    method NextEntry(sect0: nat, p0: nat, ghost k: nat) returns (sect: nat, p: nat, zero: bool)
      requires Valid() && k < g.nFatent && ScanAt(g, k, sect0, p0) && g.t != Fat12
      requires p0 <= g.ss && (p0 < g.ss ==> Shows(sect0 - 1))
      modifies this`disk, this`wflag, this`winsect, win
      ensures Valid() && Store() == old(Store())
      ensures ScanAt(g, k + 1, sect, p) && p <= g.ss
      ensures Shows(sect - 1)
      ensures zero <==> Fat()[k] == 0
    {
      hide Table, TableEdit, WriteThrough, ScanAt;
      sect, p := sect0, p0;
      if p < g.ss {
        ScanSameSector(g, Store(), k, sect, p);
      } else {
        ScanNextSector(g, Store(), k, sect);
        MoveWindow(sect);
        sect, p := sect + 1, 0;
      }
      if g.t == Fat16 {
        zero := LdWord(win[..], p) == 0;
        p := p + 2;
      } else {
        zero := LdDword(win[..], p) % 0x1000_0000 == 0;
        p := p + 4;
      }
    }

    /**
     sync_fs: the window goes out, and on FAT32 the allocation hints do. They go to the sector behind the boot sector
     whatever lies there, and to no second copy.
     */
    method SyncFs()
      requires Valid()
      modifies this, win
      ensures Valid() && !wflag && disk == Store()
      ensures freeClst == old(freeClst) && lastClst == old(lastClst)
      ensures fsiDirty == (old(fsiDirty) && fsiDisabled)
      ensures winsect == if !fsiDisabled && old(fsiDirty) then g.volbase + 1 else old(winsect)
      ensures !fsiDisabled && old(fsiDirty) ==>
            && g.volbase + 1 < g.nsect
            && Store() == old(Store())[g.volbase + 1 := FsInfo.Build(g.ss, freeClst, lastClst)]
      ensures fsiDisabled || !old(fsiDirty) ==> Store() == old(Store())
    {
      SyncWindow();
      if g.t == Fat32 && !fsiDisabled && fsiDirty {
        AreaBounds(g);
        var sector := FsInfo.Build(g.ss, freeClst, lastClst);
        forall i | 0 <= i < win.Length {
          win[i] := sector[i];
        }
        assert win[..] == sector;
        winsect := g.volbase + 1;
        DiskWrite(win[..], winsect);
        fsiDirty := false;
      }
    }

    /** The part of find_volume that loads the hints. */
    method LoadHints()
      requires Valid() && !fsiDisabled
      modifies this, win
      ensures Valid() && Store() == old(Store()) && g.volbase + 1 < g.nsect
      ensures match FsInfo.Read(Store()[g.volbase + 1])
              case Hints(free, last) => freeClst == free && lastClst == last
              case NoHints => freeClst == MAX_DWORD && lastClst == MAX_DWORD
    {
      AreaBounds(g);
      lastClst, freeClst := MAX_DWORD, MAX_DWORD;
      MoveWindow(g.volbase + 1);
      match FsInfo.Read(win[..]) {
        case Hints(free, last) => SetHints(free, last);
        case NoHints =>
      }
    }

    method SetHints(free: nat, last: nat)
      requires Valid() && free <= MAX_DWORD && last <= MAX_DWORD
      modifies this`freeClst, this`lastClst
      ensures Valid() && Store() == old(Store()) && freeClst == free && lastClst == last
    {
      freeClst, lastClst := free, last;
    }
  }
}
