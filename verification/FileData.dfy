/** Where the bytes of a file are: from a chain of clusters and the sectors of the disk to one sequence of bytes. */
module FileData {
  import opened Arith
  import opened Bytes
  import opened FatVolume

  /** clust2sect. */
  function ClustSect(g: Geometry, c: nat): nat {
    if g.InRange(c) then (c - 2) * g.csize + g.database else 0
  }

  /** The clusters of a file: usable and all different. */
  ghost predicate IsLayout(g: Geometry, cs: seq<nat>) {
    && (forall k :: 0 <= k < |cs| ==> g.InRange(cs[k]))
    && (forall k, m :: 0 <= k < m < |cs| ==> cs[k] != cs[m])
  }

  /** Number of sectors the clusters hold. */
  function SectorCount(g: Geometry, cs: seq<nat>): nat {
    |cs| * g.csize
  }

  lemma ClusterIndex(g: Geometry, cs: seq<nat>, j: nat)
    requires g.Valid()
    ensures j < SectorCount(g, cs) <==> j / g.csize < |cs|
  {
    var q := j / g.csize;
    if q < |cs| {
      MulMono(g.csize, q + 1, |cs|);
      MulDist(g.csize, q, 1);
    } else {
      MulMono(g.csize, |cs|, q);
    }
  }

  /** Address of the `j`th sector of the file. */
  function FileSector(g: Geometry, cs: seq<nat>, j: nat): nat
    requires g.csize > 0
  {
    if j / g.csize < |cs| then ClustSect(g, cs[j / g.csize]) + j % g.csize else 0
  }

  /** Does sector `s` belong to one of the clusters? */
  predicate Owns(g: Geometry, cs: seq<nat>, s: nat)
    requires g.csize > 0
  {
    s >= g.database && (s - g.database) / g.csize + 2 in cs
  }

  lemma ClusterRange(c: nat, q: nat, csize: nat, n: nat)
    requires 2 <= c < n && q < csize
    ensures (c - 2) * csize + q < (n - 2) * csize
    ensures ((c - 2) * csize + q) / csize == c - 2 && ((c - 2) * csize + q) % csize == q
  {
    DivUnique((c - 2) * csize + q, csize, c - 2, q);
    MulMono(csize, c - 1, n - 2);
    MulDist(csize, c - 2, 1);
  }

  lemma ClusterOfSector(g: Geometry, c: nat, q: nat)
    requires g.Valid() && g.InRange(c) && q < g.csize
    ensures g.FatEnd() <= g.database <= ClustSect(g, c) + q < g.nsect
    ensures (ClustSect(g, c) + q - g.database) / g.csize + 2 == c
    ensures (ClustSect(g, c) + q - g.database) % g.csize == q
  {
    AreaBounds(g);
    ClusterRange(c, q, g.csize, g.nFatent);
    assert ClustSect(g, c) + q - g.database == (c - 2) * g.csize + q;
  }

  lemma FileSectorAt(g: Geometry, cs: seq<nat>, j: nat)
    requires g.Valid() && IsLayout(g, cs) && j < SectorCount(g, cs)
    ensures j / g.csize < |cs| && g.InRange(cs[j / g.csize])
    ensures FileSector(g, cs, j) == ClustSect(g, cs[j / g.csize]) + j % g.csize
    ensures g.FatEnd() <= g.database <= FileSector(g, cs, j) < g.nsect
    ensures Owns(g, cs, FileSector(g, cs, j))
    ensures (FileSector(g, cs, j) - g.database) / g.csize + 2 == cs[j / g.csize]
    ensures (FileSector(g, cs, j) - g.database) % g.csize == j % g.csize
  {
    ClusterIndex(g, cs, j);
    ClusterOfSector(g, cs[j / g.csize], j % g.csize);
  }

  /** Different sectors of the file have different addresses. */
  lemma FileSectorInjective(g: Geometry, cs: seq<nat>, i: nat, j: nat)
    requires g.Valid() && IsLayout(g, cs) && i < SectorCount(g, cs) && j < SectorCount(g, cs)
    requires FileSector(g, cs, i) == FileSector(g, cs, j)
    ensures i == j
  {
    hide FileSector, SectorCount;
    FileSectorAt(g, cs, i);
    FileSectorAt(g, cs, j);
    SamePosition(i, j, g.csize);
  }

  /** Sectors that follow each other inside one cluster. */
  lemma FileSectorRun(g: Geometry, cs: seq<nat>, j: nat, k: nat)
    requires g.Valid() && IsLayout(g, cs) && j < SectorCount(g, cs) && j % g.csize + k < g.csize
    ensures j + k < SectorCount(g, cs)
    ensures FileSector(g, cs, j + k) == FileSector(g, cs, j) + k
  {
    hide IsLayout, ClustSect, SectorCount;
    StepInCluster(j, k, g.csize);
    ClusterIndex(g, cs, j);
    ClusterIndex(g, cs, j + k);
  }

  lemma StepInCluster(j: nat, k: nat, csize: nat)
    requires csize > 0 && j % csize + k < csize
    ensures (j + k) / csize == j / csize && (j + k) % csize == j % csize + k
  {
    DivUnique(j + k, csize, j / csize, j % csize + k);
  }

  // ---------------------------------------------------------------- bytes

  /** Number of bytes the clusters hold. */
  function Capacity(g: Geometry, cs: seq<nat>): nat {
    SectorCount(g, cs) * g.ss
  }

  lemma SectorIndex(g: Geometry, cs: seq<nat>, i: nat)
    requires g.Valid()
    ensures i < Capacity(g, cs) <==> i / g.ss < SectorCount(g, cs)
  {
    var q := i / g.ss;
    if q < SectorCount(g, cs) {
      MulMono(g.ss, q + 1, SectorCount(g, cs));
      MulDist(g.ss, q, 1);
    } else {
      MulMono(g.ss, SectorCount(g, cs), q);
    }
  }

  /** Byte `i` of the file on disk `d`. */
  ghost function FileByte(g: Geometry, d: Disk, cs: seq<nat>, i: nat): byte
    requires g.Valid() && g.IsDisk(d) && IsLayout(g, cs) && i < Capacity(g, cs)
  {
    SectorIndex(g, cs, i);
    FileSectorAt(g, cs, i / g.ss);
    d[FileSector(g, cs, i / g.ss)][i % g.ss]
  }

  /** The first `n` bytes of the file. */
  ghost function FileBytes(g: Geometry, d: Disk, cs: seq<nat>, n: nat): (r: seq<byte>)
    requires g.Valid() && g.IsDisk(d) && IsLayout(g, cs) && n <= Capacity(g, cs)
    ensures |r| == n
  {
    seq(n, i requires 0 <= i < n => FileByte(g, d, cs, i))
  }

  lemma FileByteAt(g: Geometry, d: Disk, cs: seq<nat>, i: nat)
    requires g.Valid() && g.IsDisk(d) && IsLayout(g, cs) && i < Capacity(g, cs)
    ensures i / g.ss < SectorCount(g, cs)
    ensures FileSector(g, cs, i / g.ss) < g.nsect && Owns(g, cs, FileSector(g, cs, i / g.ss))
    ensures FileByte(g, d, cs, i) == d[FileSector(g, cs, i / g.ss)][i % g.ss]
  {
    SectorIndex(g, cs, i);
    FileSectorAt(g, cs, i / g.ss);
  }

  /** Only the sectors of its clusters matter to a file. */
  lemma SameSectorsSameBytes(g: Geometry, d: Disk, e: Disk, cs: seq<nat>, n: nat)
    requires g.Valid() && g.IsDisk(d) && g.IsDisk(e) && IsLayout(g, cs) && n <= Capacity(g, cs)
    requires forall s :: 0 <= s < g.nsect && Owns(g, cs, s) ==> d[s] == e[s]
    ensures FileBytes(g, d, cs, n) == FileBytes(g, e, cs, n)
  {
    forall i | 0 <= i < n ensures FileBytes(g, d, cs, n)[i] == FileBytes(g, e, cs, n)[i] {
      FileByteAt(g, d, cs, i);
      FileByteAt(g, e, cs, i);
    }
  }

  /** A longer chain starts with the same bytes. */
  lemma LongerChain(g: Geometry, d: Disk, cs: seq<nat>, c: nat, n: nat)
    requires g.Valid() && g.IsDisk(d) && IsLayout(g, cs) && IsLayout(g, cs + [c]) && n <= Capacity(g, cs)
    ensures Capacity(g, cs) <= Capacity(g, cs + [c])
    ensures FileBytes(g, d, cs + [c], n) == FileBytes(g, d, cs, n)
  {
    MulMono(g.csize, |cs|, |cs| + 1);
    MulMono(g.ss, SectorCount(g, cs), SectorCount(g, cs + [c]));
    forall i | 0 <= i < n ensures FileBytes(g, d, cs + [c], n)[i] == FileBytes(g, d, cs, n)[i] {
      FileByteAt(g, d, cs, i);
      FileByteAt(g, d, cs + [c], i);
      ClusterIndex(g, cs, i / g.ss);
    }
  }

  /** `old` with `new_` laid over it from position `p` on; it grows if `new_` reaches beyond its end. */
  function Splice(was: seq<byte>, p: nat, data: seq<byte>): (r: seq<byte>)
    requires p <= |was|
    ensures |r| == if p + |data| > |was| then p + |data| else |was|
  {
    was[..p] + data + if p + |data| < |was| then was[p + |data|..] else []
  }

  lemma SpliceTwice(was: seq<byte>, p: nat, a: seq<byte>, b: seq<byte>)
    requires p <= |was|
    ensures Splice(Splice(was, p, a), p + |a|, b) == Splice(was, p, a + b)
  {
  }

  function Max(a: nat, b: nat): nat {
    if a < b then b else a
  }

  /** Pointwise reading of Splice. */
  lemma IsSplice(g: Geometry, d: Disk, e: Disk, cs: seq<nat>, n: nat, p: nat, data: seq<byte>)
    requires g.Valid() && g.IsDisk(d) && g.IsDisk(e) && IsLayout(g, cs)
    requires p <= n <= Capacity(g, cs) && p + |data| <= Capacity(g, cs)
    requires forall i :: 0 <= i < Max(n, p + |data|) ==>
      FileByte(g, e, cs, i) == if p <= i < p + |data| then data[i - p] else FileByte(g, d, cs, i)
    ensures FileBytes(g, e, cs, Max(n, p + |data|)) == Splice(FileBytes(g, d, cs, n), p, data)
  {
    var was, now := FileBytes(g, d, cs, n), FileBytes(g, e, cs, Max(n, p + |data|));
    forall i | 0 <= i < Max(n, p + |data|) ensures now[i] == Splice(was, p, data)[i] {
      assert now[i] == FileByte(g, e, cs, i);
    }
  }

  /** Positions inside the sector of `p`. */
  lemma InSector(p: nat, i: nat, ss: nat)
    requires ss > 0 && p <= i < p + (ss - p % ss)
    ensures i / ss == p / ss && i % ss == p % ss + (i - p)
  {
    DivUnique(i, ss, p / ss, p % ss + (i - p));
  }

  lemma SameSector(p: nat, i: nat, ss: nat)
    requires ss > 0 && i / ss == p / ss
    ensures i % ss - p % ss == i - p
  {
    assert i == ss * (i / ss) + i % ss;
    assert p == ss * (p / ss) + p % ss;
  }

  /** `e` is `d` with `data` stored in the sector of position `p`; beyond byte `n` that sector may hold anything. */
  ghost predicate PartialWrite(g: Geometry, d: Disk, e: Disk, s: nat, n: nat, p: nat, data: seq<byte>)
    requires g.Valid() && g.IsDisk(d) && g.IsDisk(e) && s < g.nsect
  {
    && p % g.ss + |data| <= g.ss
    && (forall k :: 0 <= k < |data| ==> e[s][p % g.ss + k] == data[k])
    && (forall k :: 0 <= k < g.ss && k + (p - p % g.ss) < n && !(p % g.ss <= k < p % g.ss + |data|) ==>
        e[s][k] == d[s][k])
    && (forall t :: 0 <= t < g.nsect && t != s ==> e[t] == d[t])
  }

  lemma PartialWriteByte(g: Geometry, d: Disk, e: Disk, cs: seq<nat>, n: nat, p: nat, data: seq<byte>, i: nat)
    requires g.Valid() && g.IsDisk(d) && g.IsDisk(e) && IsLayout(g, cs)
    requires i < Capacity(g, cs) && p < Capacity(g, cs) && (i < n || p <= i < p + |data|)
    requires FileSector(g, cs, p / g.ss) < g.nsect
    requires PartialWrite(g, d, e, FileSector(g, cs, p / g.ss), n, p, data)
    ensures FileByte(g, e, cs, i) == if p <= i < p + |data| then data[i - p] else FileByte(g, d, cs, i)
  {
    hide FileByte, FileSector, Capacity, SectorCount, IsLayout;
    FileByteAt(g, d, cs, i);
    FileByteAt(g, e, cs, i);
    SectorIndex(g, cs, p);
    if p <= i < p + |data| {
      InSector(p, i, g.ss);
    } else if i / g.ss == p / g.ss {
      SameSector(p, i, g.ss);
    } else if FileSector(g, cs, i / g.ss) == FileSector(g, cs, p / g.ss) {
      FileSectorInjective(g, cs, i / g.ss, p / g.ss);
    }
  }

  lemma PartialWriteSplices(g: Geometry, d: Disk, e: Disk, cs: seq<nat>, n: nat, p: nat, data: seq<byte>)
    requires g.Valid() && g.IsDisk(d) && g.IsDisk(e) && IsLayout(g, cs)
    requires p <= n <= Capacity(g, cs) && p < Capacity(g, cs) && p + |data| <= Capacity(g, cs)
    requires FileSector(g, cs, p / g.ss) < g.nsect
    requires PartialWrite(g, d, e, FileSector(g, cs, p / g.ss), n, p, data)
    ensures FileBytes(g, e, cs, Max(n, p + |data|)) == Splice(FileBytes(g, d, cs, n), p, data)
  {
    hide PartialWrite, FileByte, FileSector, Capacity, SectorCount, IsLayout;
    forall i | 0 <= i < Max(n, p + |data|)
      ensures FileByte(g, e, cs, i) == if p <= i < p + |data| then data[i - p] else FileByte(g, d, cs, i)
    {
      PartialWriteByte(g, d, e, cs, n, p, data, i);
    }
    IsSplice(g, d, e, cs, n, p, data);
  }

  /** `cc` whole sectors of `data` stored from sector `s` on. */
  function WriteRun(g: Geometry, d: Disk, s: nat, cc: nat, data: seq<byte>): (e: Disk)
    requires g.Valid() && g.IsDisk(d) && s + cc <= g.nsect && |data| == cc * g.ss
    ensures g.IsDisk(e)
  {
    RunBounds(cc, g.ss);
    seq(g.nsect, t requires 0 <= t < g.nsect => if s <= t < s + cc then data[(t - s) * g.ss..(t - s) * g.ss + g.ss]
        else d[t])
  }

  lemma RunBounds(cc: nat, ss: nat)
    ensures forall k :: 0 <= k < cc ==> 0 <= k * ss && k * ss + ss <= cc * ss
  {
    forall k | 0 <= k < cc ensures 0 <= k * ss && k * ss + ss <= cc * ss {
      RunBound(k, cc, ss);
    }
  }

  lemma RunBound(k: nat, cc: nat, ss: nat)
    requires k < cc
    ensures 0 <= k * ss && k * ss + ss <= cc * ss
  {
    MulMono(ss, k + 1, cc);
    MulDist(ss, k, 1);
  }

  lemma RunCommutes(g: Geometry, d: Disk, w: nat, sector: seq<byte>, s: nat, cc: nat, data: seq<byte>)
    requires g.Valid() && g.IsDisk(d) && g.FatEnd() <= s && s + cc <= g.nsect && |data| == cc * g.ss
    requires w < g.nsect && |sector| == g.ss && !(s <= w < s + cc)
    ensures WriteRun(g, WriteThrough(g, d, w, sector), s, cc, data)
        == WriteThrough(g, WriteRun(g, d, s, cc, data), w, sector)
  {
    AreaBounds(g);
  }

  lemma RunOutsideFat(g: Geometry, d: Disk, s: nat, cc: nat, data: seq<byte>)
    requires g.Valid() && g.IsDisk(d) && g.FatEnd() <= s && s + cc <= g.nsect && |data| == cc * g.ss
    ensures Table(g, WriteRun(g, d, s, cc, data)) == Table(g, d)
  {
    var e := WriteRun(g, d, s, cc, data);
    forall i | 0 <= i < g.fsize * g.ss ensures FlatFat(g, d)[i] == FlatFat(g, e)[i] {
      hide FlatFat;
      FlatFatAt(g, d, i);
      FlatFatAt(g, e, i);
    }
    hide Table, WriteRun;
    SameFlatSameTable(g, d, e);
  }

  /** Position `i` of a run of sectors that starts at position `p`. */
  lemma RowOrder(a: nat, b: nat, r: nat, cc: nat, ss: nat)
    requires r < ss
    ensures ss * b <= ss * a + r < ss * b + cc * ss <==> b <= a < b + cc
  {
    MulDist(ss, b, cc);
    MulDist(ss, a, 1);
    if a < b {
      MulMono(ss, a + 1, b);
    } else {
      MulMono(ss, b, a);
      if a < b + cc { MulMono(ss, a + 1, b + cc); } else { MulMono(ss, b + cc, a); }
    }
  }

  lemma InRun(p: nat, i: nat, cc: nat, ss: nat)
    requires ss > 0 && p % ss == 0
    ensures p <= i < p + cc * ss <==> p / ss <= i / ss < p / ss + cc
    ensures i - p == (i / ss - p / ss) * ss + i % ss
  {
    var a, b, r := i / ss, p / ss, i % ss;
    assert i == ss * a + r && p == ss * b;
    RowOrder(a, b, r, cc, ss);
    MulDist(ss, a, -b);
  }

  ghost predicate IsRun(g: Geometry, cs: seq<nat>, p: nat, cc: nat)
    requires g.Valid()
  {
    p % g.ss == 0 && p < Capacity(g, cs) && p / g.ss % g.csize + cc <= g.csize
  }

  lemma WholeSectorsFit(p: nat, cc: nat, ss: nat, count: nat)
    requires ss > 0 && p % ss == 0 && p / ss + cc <= count
    ensures p + cc * ss <= count * ss
  {
    MulMono(ss, p / ss + cc, count);
    MulDist(ss, p / ss, cc);
  }

  lemma RunFits(g: Geometry, cs: seq<nat>, p: nat, cc: nat)
    requires g.Valid() && IsLayout(g, cs) && IsRun(g, cs, p, cc)
    ensures p / g.ss < SectorCount(g, cs)
    ensures FileSector(g, cs, p / g.ss) + cc <= g.nsect
    ensures p + cc * g.ss <= Capacity(g, cs)
    ensures g.FatEnd() <= g.database <= FileSector(g, cs, p / g.ss)
  {
    hide FileSector, SectorCount, IsLayout, ClustSect, Owns;
    SectorIndex(g, cs, p);
    FileSectorAt(g, cs, p / g.ss);
    if cc > 0 {
      FileSectorRun(g, cs, p / g.ss, cc - 1);
      FileSectorAt(g, cs, p / g.ss + cc - 1);
      hide Geometry.Valid, IsRun, Geometry.FatEnd;
      WholeSectorsFit(p, cc, g.ss, SectorCount(g, cs));
    }
  }

  /** Sector `i / ss` of the file lies in the run exactly when position `i` does. */
  lemma RunSector(g: Geometry, cs: seq<nat>, p: nat, cc: nat, i: nat)
    requires g.Valid() && IsLayout(g, cs) && IsRun(g, cs, p, cc) && i < Capacity(g, cs)
    ensures var s, t := FileSector(g, cs, p / g.ss), FileSector(g, cs, i / g.ss);
      p <= i < p + cc * g.ss <==> s <= t < s + cc
    ensures p <= i < p + cc * g.ss ==> FileSector(g, cs, i / g.ss) - FileSector(g, cs, p / g.ss) == i / g.ss - p / g.ss
  {
    hide FileSector, SectorCount, Capacity, IsLayout;
    InRun(p, i, cc, g.ss);
    SectorIndex(g, cs, p);
    SectorIndex(g, cs, i);
    var a, b := i / g.ss, p / g.ss;
    var s, t := FileSector(g, cs, b), FileSector(g, cs, a);
    if b <= a < b + cc {
      FileSectorRun(g, cs, b, a - b);
    } else if s <= t < s + cc {
      FileSectorRun(g, cs, b, t - s);
      FileSectorInjective(g, cs, a, b + (t - s));
    }
  }

  lemma WriteRunByte(g: Geometry, d: Disk, cs: seq<nat>, p: nat, cc: nat, data: seq<byte>, i: nat)
    requires g.Valid() && g.IsDisk(d) && IsLayout(g, cs) && IsRun(g, cs, p, cc) && i < Capacity(g, cs)
    requires FileSector(g, cs, p / g.ss) + cc <= g.nsect && |data| == cc * g.ss
    ensures FileByte(g, WriteRun(g, d, FileSector(g, cs, p / g.ss), cc, data), cs, i)
         == if p <= i < p + |data| then data[i - p] else FileByte(g, d, cs, i)
  {
    hide FileByte, FileSector, SectorCount, Capacity, IsLayout;
    var s := FileSector(g, cs, p / g.ss);
    var e := WriteRun(g, d, s, cc, data);
    RunSector(g, cs, p, cc, i);
    InRun(p, i, cc, g.ss);
    FileByteAt(g, d, cs, i);
    FileByteAt(g, e, cs, i);
    var t := FileSector(g, cs, i / g.ss);
    hide Geometry.Valid, IsRun;
    WrittenSector(g, d, s, cc, data, t);
    hide WriteRun;
  }

  lemma WrittenSector(g: Geometry, d: Disk, s: nat, cc: nat, data: seq<byte>, t: nat)
    requires g.Valid() && g.IsDisk(d) && s + cc <= g.nsect && |data| == cc * g.ss && t < g.nsect
    ensures s <= t < s + cc ==> 0 <= (t - s) * g.ss && (t - s) * g.ss + g.ss <= |data|
    ensures WriteRun(g, d, s, cc, data)[t] == if s <= t < s + cc then data[(t - s) * g.ss..(t - s) * g.ss + g.ss]
        else d[t]
  {
    if s <= t < s + cc { RunBound(t - s, cc, g.ss); }
  }

  lemma WriteRunSplices(g: Geometry, d: Disk, cs: seq<nat>, n: nat, p: nat, cc: nat, data: seq<byte>)
    requires g.Valid() && g.IsDisk(d) && IsLayout(g, cs) && IsRun(g, cs, p, cc)
    requires p <= n <= Capacity(g, cs) && p + |data| <= Capacity(g, cs)
    requires FileSector(g, cs, p / g.ss) + cc <= g.nsect && |data| == cc * g.ss
    ensures FileBytes(g, WriteRun(g, d, FileSector(g, cs, p / g.ss), cc, data), cs, Max(n, p + |data|))
         == Splice(FileBytes(g, d, cs, n), p, data)
  {
    hide FileByte, FileSector, SectorCount, Capacity, IsLayout, IsRun, WriteRun;
    var e := WriteRun(g, d, FileSector(g, cs, p / g.ss), cc, data);
    forall i | 0 <= i < Max(n, p + |data|)
      ensures FileByte(g, e, cs, i) == if p <= i < p + |data| then data[i - p] else FileByte(g, d, cs, i)
    {
      WriteRunByte(g, d, cs, p, cc, data, i);
    }
    IsSplice(g, d, e, cs, n, p, data);
  }

  // ---------------------------------------------------------------- reading

  /** `cc` whole sectors from sector `s` on, as one buffer. */
  function ReadRun(g: Geometry, d: Disk, s: nat, cc: nat): (r: seq<byte>)
    requires g.ss > 0 && s + cc <= |d| && forall t :: 0 <= t < |d| ==> |d[t]| == g.ss
    ensures |r| == cc * g.ss
  {
    RunIndices(cc, g.ss);
    seq(cc * g.ss, i requires 0 <= i < cc * g.ss => d[s + i / g.ss][i % g.ss])
  }

  lemma RunIndices(cc: nat, ss: nat)
    requires ss > 0
    ensures forall i :: 0 <= i < cc * ss ==> 0 <= i / ss < cc
  {
    forall i | 0 <= i < cc * ss ensures 0 <= i / ss < cc {
      InRun(0, i, cc, ss);
    }
  }

  lemma Offset(p: nat, i: nat, ss: nat)
    requires ss > 0 && p % ss == 0
    ensures i / ss == (p + i) / ss - p / ss && i % ss == (p + i) % ss
  {
    var q := p / ss;
    assert p == ss * q;
    MulDist(ss, q, i / ss);
    DivUnique(p + i, ss, q + i / ss, i % ss);
  }

  lemma ReadRunByte(g: Geometry, d: Disk, cs: seq<nat>, p: nat, cc: nat, i: nat)
    requires g.Valid() && g.IsDisk(d) && IsLayout(g, cs) && IsRun(g, cs, p, cc)
    requires i < cc * g.ss && p + i < Capacity(g, cs) && FileSector(g, cs, p / g.ss) + cc <= g.nsect
    ensures ReadRun(g, d, FileSector(g, cs, p / g.ss), cc)[i] == FileByte(g, d, cs, p + i)
  {
    hide FileByte, FileSector, SectorCount, Capacity, IsLayout;
    RunSector(g, cs, p, cc, p + i);
    InRun(p, p + i, cc, g.ss);
    FileByteAt(g, d, cs, p + i);
    Offset(p, i, g.ss);
  }

  /** A run of sectors read from disk is a slice of the file. */
  lemma ReadRunIsSlice(g: Geometry, d: Disk, cs: seq<nat>, n: nat, p: nat, cc: nat)
    requires g.Valid() && g.IsDisk(d) && IsLayout(g, cs) && IsRun(g, cs, p, cc)
    requires p + cc * g.ss <= n <= Capacity(g, cs) && FileSector(g, cs, p / g.ss) + cc <= g.nsect
    ensures ReadRun(g, d, FileSector(g, cs, p / g.ss), cc) == FileBytes(g, d, cs, n)[p..p + cc * g.ss]
  {
    hide FileByte, FileSector, SectorCount, Capacity, IsLayout, IsRun, ReadRun;
    var r := ReadRun(g, d, FileSector(g, cs, p / g.ss), cc);
    forall i | 0 <= i < |r| ensures r[i] == FileBytes(g, d, cs, n)[p..p + cc * g.ss][i] {
      ReadRunByte(g, d, cs, p, cc, i);
    }
  }

  /** Part of one sector is a slice of the file. */
  lemma ReadPartIsSlice(g: Geometry, d: Disk, cs: seq<nat>, n: nat, p: nat, m: nat)
    requires g.Valid() && g.IsDisk(d) && IsLayout(g, cs)
    requires p + m <= n <= Capacity(g, cs) && p % g.ss + m <= g.ss && p < Capacity(g, cs)
    requires FileSector(g, cs, p / g.ss) < g.nsect
    ensures d[FileSector(g, cs, p / g.ss)][p % g.ss..p % g.ss + m] == FileBytes(g, d, cs, n)[p..p + m]
  {
    hide FileByte, FileSector, SectorCount, Capacity, IsLayout;
    var part := d[FileSector(g, cs, p / g.ss)][p % g.ss..p % g.ss + m];
    var whole := FileBytes(g, d, cs, n)[p..p + m];
    forall i | 0 <= i < m ensures part[i] == whole[i] {
      ReadPartByte(g, d, cs, p, i);
    }
  }

  lemma ReadPartByte(g: Geometry, d: Disk, cs: seq<nat>, p: nat, i: nat)
    requires g.Valid() && g.IsDisk(d) && IsLayout(g, cs)
    requires p + i < Capacity(g, cs) && p % g.ss + i < g.ss && FileSector(g, cs, p / g.ss) < g.nsect
    ensures d[FileSector(g, cs, p / g.ss)][p % g.ss + i] == FileByte(g, d, cs, p + i)
  {
    hide FileByte, FileSector, SectorCount, Capacity, IsLayout;
    InSector(p, p + i, g.ss);
    FileByteAt(g, d, cs, p + i);
  }
}
