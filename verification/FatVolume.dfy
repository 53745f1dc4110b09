/**
 The layout of a mounted FAT volume and what its sectors mean: where the table copies and the clusters are,
 the table as flat bytes, and its entries as a sequence of numbers (ff.c, struct FATFS as find_volume fills it).
 */
module FatVolume {
  import opened Arith
  import opened Bytes
  import opened FatEntries

  const MAX_DWORD := 0xFFFF_FFFF

  /** Smallest value get_fat can return for an end-of-chain mark, plus one sentinel: no volume has more entries. */
  function MaxEntries(t: FatType): nat {
    match t
    case Fat12 => 0xFF7
    case Fat16 => 0xFFF7
    case Fat32 => 0xFFF_FFF7
  }

  /** Cluster numbers and the end mark survive being stored: the mark lies beyond every cluster number. */
  lemma SmallFits(t: FatType, c: nat)
    requires c < MaxEntries(t)
    ensures Cut(t, c) == c && Cut(t, MAX_DWORD) >= MaxEntries(t)
  {
  }

  type Disk = seq<seq<byte>>

  datatype Geometry = Geometry(
    t: FatType, ss: nat, csize: nat, nFats: nat, fsize: nat, nFatent: nat,
    volbase: nat, fatbase: nat, database: nat, nsect: nat)
  {
    ghost predicate Valid() {
      && ss in {512, 1024, 2048, 4096}
      && csize in {1, 2, 4, 8, 16, 32, 64, 128}
      && 1 <= nFats <= 2
      && 3 <= nFatent <= MaxEntries(t)
      && TableBytes(t, nFatent) <= fsize * ss
      && volbase < fatbase
      && fatbase + fsize <= FatEnd() <= database < nsect
      && database + (nFatent - 2) * csize <= nsect < MAX_DWORD
    }

    /** First sector after the table copies. */
    function FatEnd(): nat {
      if nFats == 2 then fatbase + 2 * fsize else fatbase + fsize
    }

    /** Is `s` a sector of the first table copy? (The sectors of the second copy are left to InMirror.) */
    predicate InFat(s: nat) {
      fatbase <= s < fatbase + fsize
    }

    predicate InMirror(s: nat) {
      fatbase + fsize <= s < FatEnd()
    }

    /** The sector of the first table copy that holds flat position `i`. */
    function SectorOf(i: nat): nat {
      if ss == 0 then 0 else fatbase + i / ss
    }

    /** Which cluster of a file, counted from its start, holds byte `p`. */
    function ClusterIx(p: nat): nat {
      if ss == 0 || csize == 0 then 0 else p / ss / csize
    }

    /** Size of a cluster in bytes. */
    function Bcs(): nat {
      ss * csize
    }

    /** A cluster number that has an entry and sectors of its own. */
    predicate InRange(c: nat) {
      2 <= c < nFatent
    }

    ghost predicate IsDisk(d: Disk) {
      && |d| == nsect
      && forall s :: 0 <= s < nsect ==> |d[s]| == ss
    }
  }

  /** The disk after sector `s` has been written, and its copy when `s` holds part of the table. */
  ghost function WriteThrough(g: Geometry, d: Disk, s: nat, data: seq<byte>): (r: Disk)
    requires g.Valid() && g.IsDisk(d) && s < g.nsect && |data| == g.ss
    ensures g.IsDisk(r)
  {
    var r := d[s := data];
    if g.InFat(s) && g.nFats == 2 then r[s + g.fsize := data] else r
  }

  lemma AreaBounds(g: Geometry)
    requires g.Valid()
    ensures g.fatbase + g.fsize <= g.FatEnd() <= g.database < g.nsect
  {
    MulMono(g.csize, 1, g.nFatent - 2);
  }

  /** Both table copies hold the same bytes. */
  ghost predicate Mirrored(g: Geometry, d: Disk)
    requires g.Valid() && g.IsDisk(d)
  {
    && g.FatEnd() <= |d|
    && (g.nFats == 2 ==> forall s {:trigger g.InFat(s)} :: 0 <= s && g.InFat(s) ==> d[s + g.fsize] == d[s])
  }

  lemma WriteThroughKeepsMirror(g: Geometry, d: Disk, s: nat, data: seq<byte>)
    requires g.Valid() && g.IsDisk(d) && s < g.nsect && |data| == g.ss
    requires Mirrored(g, d) && !g.InMirror(s)
    ensures Mirrored(g, WriteThrough(g, d, s, data))
  {
    var r := WriteThrough(g, d, s, data);
    forall k | 0 <= k && g.InFat(k) && g.nFats == 2 ensures r[k + g.fsize] == r[k] {
      assert g.InMirror(k + g.fsize);
    }
  }

  function FatByte(g: Geometry, d: Disk, i: nat): byte
    requires g.ss > 0 && g.fatbase + i / g.ss < |d| && i % g.ss < |d[g.fatbase + i / g.ss]|
  {
    d[g.fatbase + i / g.ss][i % g.ss]
  }

  lemma FatSector(g: Geometry, i: nat)
    requires g.Valid() && i < g.fsize * g.ss
    ensures i / g.ss < g.fsize && g.InFat(g.fatbase + i / g.ss)
  {
    var q := i / g.ss;
    if q >= g.fsize {
      MulMono(g.ss, g.fsize, q);
    }
    AreaBounds(g);
  }

  lemma FatSectors(g: Geometry)
    requires g.Valid()
    ensures forall i :: 0 <= i < g.fsize * g.ss ==> 0 <= i / g.ss < g.fsize
  {
    forall i | 0 <= i < g.fsize * g.ss ensures 0 <= i / g.ss < g.fsize {
      FatSector(g, i);
    }
    AreaBounds(g);
  }

  /** The bytes of the first table copy, in order. */
  ghost function FlatFat(g: Geometry, d: Disk): (r: seq<byte>)
    requires g.Valid() && g.IsDisk(d)
    ensures |r| == g.fsize * g.ss
  {
    FatSectors(g);
    seq(g.fsize * g.ss, i requires 0 <= i < g.fsize * g.ss => FatByte(g, d, i))
  }

  /** The table as numbers. Entries 0 and 1 do not describe clusters. */
  ghost function Table(g: Geometry, d: Disk): (r: seq<nat>)
    requires g.Valid() && g.IsDisk(d)
    ensures |r| == g.nFatent
  {
    EntriesFit(g);
    seq(g.nFatent, c requires 0 <= c < g.nFatent => Decode(g.t, FlatFat(g, d), c))
  }

  lemma EntriesFit(g: Geometry)
    requires g.Valid()
    ensures forall c :: 0 <= c < g.nFatent ==> EntryOffset(g.t, c) + EntryWidth(g.t) <= g.fsize * g.ss
  {
    forall c | 0 <= c < g.nFatent ensures EntryOffset(g.t, c) + EntryWidth(g.t) <= g.fsize * g.ss {
      EntryFits(g.t, g.nFatent, c);
    }
  }

  lemma FlatFatAt(g: Geometry, d: Disk, i: nat)
    requires g.Valid() && g.IsDisk(d) && i < g.fsize * g.ss
    ensures i / g.ss < g.fsize && g.InFat(g.fatbase + i / g.ss) && g.fatbase + i / g.ss < g.nsect
    ensures FlatFat(g, d)[i] == d[g.fatbase + i / g.ss][i % g.ss]
  {
    FatSector(g, i);
    AreaBounds(g);
  }

  lemma SamePosition(i: nat, j: nat, ss: nat)
    requires ss > 0
    requires i / ss == j / ss && i % ss == j % ss
    ensures i == j
  {
    assert i == ss * (i / ss) + i % ss;
    assert j == ss * (j / ss) + j % ss;
  }

  lemma WriteThroughAt(g: Geometry, d: Disk, s: nat, data: seq<byte>, k: nat)
    requires g.Valid() && g.IsDisk(d) && s < g.nsect && |data| == g.ss && k < g.nsect
    ensures g.InFat(k) ==> WriteThrough(g, d, s, data)[k] == if k == s then data else d[k]
  {
  }

  lemma EditFatByteAt(g: Geometry, d: Disk, i: nat, b: byte, j: nat)
    requires g.Valid() && g.IsDisk(d) && i < g.fsize * g.ss && j < g.fsize * g.ss
    requires g.fatbase + i / g.ss < g.nsect
    ensures FlatFat(g, WriteThrough(g, d, g.fatbase + i / g.ss, d[g.fatbase + i / g.ss][i % g.ss := b]))[j]
         == if i == j then b else FlatFat(g, d)[j]
  {
    var s := g.fatbase + i / g.ss;
    var data := d[s][i % g.ss := b];
    FlatFatAt(g, d, j);
    FlatFatAt(g, WriteThrough(g, d, s, data), j);
    WriteThroughAt(g, d, s, data, g.fatbase + j / g.ss);
    if j / g.ss == i / g.ss && j % g.ss == i % g.ss {
      SamePosition(i, j, g.ss);
    }
  }

  lemma TableAt(g: Geometry, d: Disk, c: nat)
    requires g.Valid() && g.IsDisk(d) && c < g.nFatent
    ensures EntryOffset(g.t, c) + EntryWidth(g.t) <= g.fsize * g.ss
    ensures Table(g, d)[c] == Decode(g.t, FlatFat(g, d), c)
  {
    EntriesFit(g);
  }

  /** Overwriting the byte at flat position `i` of the table. */
  lemma EditFatByte(g: Geometry, d: Disk, i: nat, b: byte)
    requires g.Valid() && g.IsDisk(d) && i < g.fsize * g.ss
    ensures i / g.ss < g.fsize && g.fatbase + i / g.ss < g.nsect
    ensures FlatFat(g, WriteThrough(g, d, g.fatbase + i / g.ss, d[g.fatbase + i / g.ss][i % g.ss := b]))
        == FlatFat(g, d)[i := b]
  {
    FlatFatAt(g, d, i);
    var e := WriteThrough(g, d, g.fatbase + i / g.ss, d[g.fatbase + i / g.ss][i % g.ss := b]);
    forall j | 0 <= j < g.fsize * g.ss ensures FlatFat(g, e)[j] == FlatFat(g, d)[i := b][j] {
      EditFatByteAt(g, d, i, b, j);
    }
  }

  /** Writing outside the first copy does not reach the table. */
  lemma EditElsewhere(g: Geometry, d: Disk, s: nat, data: seq<byte>)
    requires g.Valid() && g.IsDisk(d) && s < g.nsect && |data| == g.ss && !g.InFat(s)
    ensures FlatFat(g, WriteThrough(g, d, s, data)) == FlatFat(g, d)
    ensures Table(g, WriteThrough(g, d, s, data)) == Table(g, d)
  {
    forall j | 0 <= j < g.fsize * g.ss ensures FlatFat(g, WriteThrough(g, d, s, data))[j] == FlatFat(g, d)[j] {
      FlatFatAt(g, d, j);
      FlatFatAt(g, WriteThrough(g, d, s, data), j);
      WriteThroughAt(g, d, s, data, g.fatbase + j / g.ss);
    }
    SameFlatSameTable(g, d, WriteThrough(g, d, s, data));
  }

  lemma SameFlatSameTable(g: Geometry, d: Disk, e: Disk)
    requires g.Valid() && g.IsDisk(d) && g.IsDisk(e) && FlatFat(g, d) == FlatFat(g, e)
    ensures Table(g, d) == Table(g, e)
  {
    EntriesFit(g);
    forall k | 0 <= k < g.nFatent ensures Table(g, d)[k] == Table(g, e)[k] {
    }
  }

  /** Entries of `w` bytes do not straddle sectors when `w` divides the sector size. */
  lemma WholeEntries(ss: nat, h: nat, w: nat, c: nat)
    requires w > 0 && h > 0 && ss == h * w
    ensures ss > 0
    ensures c / h == c * w / ss
    ensures c * w % ss + w <= ss
  {
    var q, r := c / h, c % h;
    MulMono(h, 1, w);
    assert c == h * q + r;
    MulDist(w, h * q, r);
    MulAssoc(w, h, q);
    MulMono(w, r + 1, h);
    MulDist(w, r, 1);
    DivUnique(c * w, ss, q, w * r);
  }

  lemma PairInSector(g: Geometry, w: nat, c: nat)
    requires g.Valid() && (w == 2 || w == 4) && c * w + w <= g.fsize * g.ss
    ensures c / (g.ss / w) == c * w / g.ss
    ensures c * w % g.ss + w <= g.ss
    ensures c / (g.ss / w) < g.fsize && g.fatbase + c / (g.ss / w) < g.nsect
    ensures g.InFat(g.fatbase + c / (g.ss / w))
  {
    assert g.ss == (g.ss / w) * w;
    WholeEntries(g.ss, g.ss / w, w, c);
    FlatFatBounds(g, c * w);
  }

  lemma FlatFatBounds(g: Geometry, i: nat)
    requires g.Valid() && i < g.fsize * g.ss
    ensures i / g.ss < g.fsize && g.InFat(g.fatbase + i / g.ss) && g.fatbase + i / g.ss < g.nsect
  {
    FatSector(g, i);
    AreaBounds(g);
  }

  lemma NextInSector(i: nat, ss: nat)
    requires ss > 0 && i % ss + 1 < ss
    ensures (i + 1) / ss == i / ss && (i + 1) % ss == i % ss + 1
  {
    DivUnique(i + 1, ss, i / ss, i % ss + 1);
  }

  /** Two neighbouring bytes of the table that share a sector. */
  lemma FlatWord(g: Geometry, d: Disk, i: nat)
    requires g.Valid() && g.IsDisk(d) && i + 1 < g.fsize * g.ss && i % g.ss + 1 < g.ss
    ensures g.fatbase + i / g.ss < g.nsect
    ensures LdWord(FlatFat(g, d), i) == LdWord(d[g.fatbase + i / g.ss], i % g.ss)
  {
    NextInSector(i, g.ss);
    FlatFatAt(g, d, i);
    FlatFatAt(g, d, i + 1);
  }

  lemma FlatDword(g: Geometry, d: Disk, i: nat)
    requires g.Valid() && g.IsDisk(d) && i + 3 < g.fsize * g.ss && i % g.ss + 3 < g.ss
    ensures g.fatbase + i / g.ss < g.nsect
    ensures LdDword(FlatFat(g, d), i) == LdDword(d[g.fatbase + i / g.ss], i % g.ss)
  {
    NextInSector(i, g.ss);
    NextInSector(i + 1, g.ss);
    FlatWord(g, d, i);
    FlatWord(g, d, i + 2);
  }

  /** From `d` to `e` at most the table has changed, and its copies have been kept alike. */
  ghost predicate TableEdit(g: Geometry, d: Disk, e: Disk)
    requires g.Valid() && g.IsDisk(d) && g.IsDisk(e)
  {
    && (forall s :: 0 <= s < g.nsect && !(g.fatbase <= s < g.FatEnd()) ==> d[s] == e[s])
    && (Mirrored(g, d) ==> Mirrored(g, e))
  }

  lemma WriteIsTableEdit(g: Geometry, d: Disk, s: nat, data: seq<byte>)
    requires g.Valid() && g.IsDisk(d) && s < g.nsect && |data| == g.ss && g.InFat(s)
    ensures TableEdit(g, d, WriteThrough(g, d, s, data))
  {
    if Mirrored(g, d) {
      WriteThroughKeepsMirror(g, d, s, data);
    }
  }

  lemma EditIsTableEdit(g: Geometry, d: Disk, i: nat, b: byte)
    requires g.Valid() && g.IsDisk(d) && i < g.fsize * g.ss
    ensures var s := g.SectorOf(i);
      && s < g.nsect && g.InFat(s) && !g.InMirror(s) && i % g.ss < g.ss
      && var e := WriteThrough(g, d, s, d[s][i % g.ss := b]);
         FlatFat(g, e) == FlatFat(g, d)[i := b] && TableEdit(g, d, e)
  {
    FlatFatAt(g, d, i);
    EditFatByte(g, d, i, b);
    WriteIsTableEdit(g, d, g.SectorOf(i), d[g.SectorOf(i)][i % g.ss := b]);
  }

  lemma NoTableEdit(g: Geometry, d: Disk)
    requires g.Valid() && g.IsDisk(d)
    ensures TableEdit(g, d, d)
  {
  }

  lemma TableEditTwice(g: Geometry, d: Disk, e: Disk, f: Disk)
    requires g.Valid() && g.IsDisk(d) && g.IsDisk(e) && g.IsDisk(f)
    requires TableEdit(g, d, e) && TableEdit(g, e, f)
    ensures TableEdit(g, d, f)
  {
  }

  /** The reserved top bits of FAT32 entries are the same on both disks. */
  ghost predicate ReservedKept(g: Geometry, d: Disk, e: Disk)
    requires g.Valid() && g.IsDisk(d) && g.IsDisk(e)
  {
    forall c :: 0 <= c < g.nFatent ==> ReservedAt(g, d, c) == ReservedAt(g, e, c)
  }

  ghost function ReservedAt(g: Geometry, d: Disk, c: nat): nat
    requires g.Valid() && g.IsDisk(d) && c < g.nFatent
  {
    EntriesFit(g);
    Reserved(g.t, FlatFat(g, d), c)
  }

  lemma EncodeReserved(g: Geometry, d: Disk, e: Disk, c: nat, v: nat)
    requires g.Valid() && g.IsDisk(d) && g.IsDisk(e) && c < g.nFatent
    requires EntryOffset(g.t, c) + EntryWidth(g.t) <= g.fsize * g.ss
    requires FlatFat(g, e) == Encode(g.t, FlatFat(g, d), c, v)
    ensures ReservedKept(g, d, e)
  {
    EntriesFit(g);
    forall k | 0 <= k < g.nFatent ensures ReservedAt(g, d, k) == ReservedAt(g, e, k) {
      EncodeKeepsReserved(g.t, FlatFat(g, d), c, v, k);
    }
  }

  /** Encode at the level of numbers: one entry changes, to the cut value. */
  lemma EncodeTable(g: Geometry, d: Disk, e: Disk, c: nat, v: nat)
    requires g.Valid() && g.IsDisk(d) && g.IsDisk(e) && c < g.nFatent
    requires EntryOffset(g.t, c) + EntryWidth(g.t) <= g.fsize * g.ss
    requires FlatFat(g, e) == Encode(g.t, FlatFat(g, d), c, v)
    ensures Table(g, e) == Table(g, d)[c := Cut(g.t, v)]
  {
    EntriesFit(g);
    forall k | 0 <= k < g.nFatent ensures Table(g, e)[k] == Table(g, d)[c := Cut(g.t, v)][k] {
      if k == c {
        EncodeThenDecode(g.t, FlatFat(g, d), c, v);
      } else {
        EncodeKeepsOthers(g.t, FlatFat(g, d), c, v, k);
      }
    }
  }

  /** Entry `k` of a FAT16 or FAT32 table, found `p` bytes into sector `q` of the table. */
  lemma EntryInSector(g: Geometry, d: Disk, k: nat, q: nat, p: nat)
    requires g.Valid() && g.IsDisk(d) && g.t != Fat12 && k < g.nFatent
    requires k * EntryWidth(g.t) == g.ss * q + p && p < g.ss && p % EntryWidth(g.t) == 0
    ensures q < g.fsize && g.fatbase + q < g.nsect && p + EntryWidth(g.t) <= g.ss
    ensures g.t == Fat16 ==> Table(g, d)[k] == LdWord(d[g.fatbase + q], p)
    ensures g.t == Fat32 ==> Table(g, d)[k] == LdDword(d[g.fatbase + q], p) % 0x1000_0000
  {
    var w := EntryWidth(g.t);
    RoomForEntry(g.ss, w, p);
    hide Geometry.Valid, Table, FlatFat;
    DivUnique(k * w, g.ss, q, p);
    TableAt(g, d, k);
    FlatFatBounds(g, k * w);
    if g.t == Fat16 {
      FlatWord(g, d, k * w);
    } else {
      FlatDword(g, d, k * w);
    }
  }

  lemma RoomForEntry(ss: nat, w: nat, p: nat)
    requires ss in {512, 1024, 2048, 4096} && (w == 2 || w == 4) && p < ss && p % w == 0
    ensures p + w <= ss
  {
  }

  /** The scan of f_getfree has consumed `k` entries and `p` bytes of the sector before `sect`. */
  ghost predicate ScanAt(g: Geometry, k: nat, sect: nat, p: nat) {
    && g.t != Fat12 && p <= g.ss && p % EntryWidth(g.t) == 0 && sect >= g.fatbase
    && k * EntryWidth(g.t) + g.ss == g.ss * (sect - g.fatbase) + p
  }

  lemma ScanStart(g: Geometry)
    requires g.Valid() && g.t != Fat12
    ensures ScanAt(g, 0, g.fatbase, g.ss)
  {
  }

  /** The next entry to look at, at the start of sector `sect`. */
  lemma ScanNextSector(g: Geometry, d: Disk, k: nat, sect: nat)
    requires g.Valid() && g.IsDisk(d) && k < g.nFatent && ScanAt(g, k, sect, g.ss)
    ensures sect < g.nsect && EntryWidth(g.t) <= g.ss
    ensures g.t == Fat16 ==> Table(g, d)[k] == LdWord(d[sect], 0)
    ensures g.t == Fat32 ==> Table(g, d)[k] == LdDword(d[sect], 0) % 0x1000_0000
    ensures ScanAt(g, k + 1, sect + 1, EntryWidth(g.t))
  {
    assert g.ss > 0 && EntryWidth(g.t) <= g.ss;
    hide Geometry.Valid, Table;
    var n := sect - g.fatbase;
    assert k * EntryWidth(g.t) == g.ss * n + 0;
    EntryInSector(g, d, k, n, 0);
    MulDist(EntryWidth(g.t), k, 1);
    MulDist(g.ss, n, 1);
  }

  /** The next entry to look at, `p` bytes into the sector before `sect`. */
  lemma ScanSameSector(g: Geometry, d: Disk, k: nat, sect: nat, p: nat)
    requires g.Valid() && g.IsDisk(d) && k < g.nFatent && ScanAt(g, k, sect, p) && p < g.ss
    ensures 0 < sect <= g.nsect && p + EntryWidth(g.t) <= g.ss
    ensures g.t == Fat16 ==> Table(g, d)[k] == LdWord(d[sect - 1], p)
    ensures g.t == Fat32 ==> Table(g, d)[k] == LdDword(d[sect - 1], p) % 0x1000_0000
    ensures ScanAt(g, k + 1, sect, p + EntryWidth(g.t))
  {
    hide Geometry.Valid, Table;
    var n := sect - g.fatbase;
    assert n > 0;
    MulDist(g.ss, n - 1, 1);
    assert k * EntryWidth(g.t) == g.ss * (n - 1) + p;
    EntryInSector(g, d, k, n - 1, p);
    MulDist(EntryWidth(g.t), k, 1);
    StepByEntry(p, EntryWidth(g.t));
  }

  lemma StepByEntry(p: nat, w: nat)
    requires (w == 2 || w == 4) && p % w == 0
    ensures (p + w) % w == 0
  {
    if w == 2 { assert (p + 2) % 2 == p % 2; } else { assert (p + 4) % 4 == p % 4; }
  }
}
