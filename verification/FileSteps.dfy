/** What the file operations rest on: positions, sectors and clusters of a file, runs of sectors, and fragments. */
module FileSteps {
  import opened Arith
  import opened Bytes
  import opened FatEntries
  import opened FatVolume
  import opened FileData
  import Chains = FatChains
  import LinkMap

  /** The first `k` clusters of `cs` have been written into the table as pairs, unless it is too short for them. */
  ghost predicate Written(tbl: seq<nat>, cs: seq<nat>, k: nat, tlen: nat, t: nat, ulen: nat) {
    && 0 < |tbl| && tlen <= |tbl| && k <= |cs| && LinkMap.Breaks(cs, k)
    && ulen == 2 + 2 * LinkMap.Fragments(cs[..k])
    && 1 <= t <= |tbl| && (t - 1) % 2 == 0
    && (ulen <= tlen ==>
      && t + 1 == ulen && LinkMap.Pairs(tbl, 1, t) == cs[..k]
      && forall i :: 1 <= i < t && (i - 1) % 2 == 0 ==> tbl[i] > 0)
  }

  lemma WrittenStart(tbl: seq<nat>, cs: seq<nat>, tlen: nat)
    requires 0 < |tbl| && tlen <= |tbl|
    ensures Written(tbl, cs, 0, tlen, 1, 2)
  {
    assert cs[..0] == [];
  }

  lemma WrittenFits(tbl: seq<nat>, cs: seq<nat>, k: nat, tlen: nat, t: nat, ulen: nat)
    requires Written(tbl, cs, k, tlen, t, ulen)
    ensures t >= 1 && (ulen <= tlen ==> t < |tbl|) && (ulen + 2 <= tlen ==> t + 2 < |tbl|)
  {
  }

  lemma WrittenNext(tbl: seq<nat>, ubl: seq<nat>, cs: seq<nat>, k: nat, m: nat, tlen: nat, t: nat, ulen: nat,
      tcl: nat, ncl: nat)
    requires Written(tbl, cs, k, tlen, t, ulen) && LinkMap.IsFragment(cs, k, m)
    requires tcl == cs[k] && ncl == m - k && (ulen + 2 <= tlen ==> t + 1 < |tbl|)
    requires ubl == if ulen + 2 <= tlen then tbl[t := ncl][t + 1 := tcl] else tbl
    ensures Written(ubl, cs, m, tlen, if ulen + 2 <= tlen then t + 2 else t, ulen + 2)
  {
    hide LinkMap.Fragments, LinkMap.Pairs;
    LinkMap.NextFragment(cs, k, m);
    if ulen + 2 <= tlen {
      LinkMap.FragmentIsConsecutive(cs, k, m);
      LinkMap.AddPair(tbl, t, ncl, tcl);
    }
  }

  lemma WrittenAll(tbl: seq<nat>, ubl: seq<nat>, cs: seq<nat>, tlen: nat, t: nat, ulen: nat)
    requires Written(tbl, cs, |cs|, tlen, t, ulen)
    requires ulen <= tlen ==> t < |tbl|
    requires ubl == if ulen <= tlen then tbl[0 := ulen][t := 0] else tbl[0 := ulen]
    ensures ulen == 2 * LinkMap.Fragments(cs) + 2
    ensures ulen <= tlen ==> LinkMap.Terminated(ubl, 1) && LinkMap.Expand(ubl, 1) == cs
  {
    assert cs[..|cs|] == cs;
    if ulen <= tlen {
      assert tbl[1..t] == ubl[1..t];
      LinkMap.PairsFrame(tbl, ubl, 1, t);
      LinkMap.PairsAreExpand(ubl, 1, t);
    }
  }

  lemma NoFragment(fat: seq<nat>, cs: seq<nat>)
    ensures cs == [] ==> EndsPlainly(fat, cs)
  {
  }

  /** The end mark of the chain does not look like a link to the cluster number after the last. */
  ghost predicate EndsPlainly(fat: seq<nat>, cs: seq<nat>)
  {
    cs != [] && cs[|cs| - 1] < |fat| ==> fat[cs[|cs| - 1]] != cs[|cs| - 1] + 1
  }

  /** A walk along `cs` that has counted the clusters from number `k` to before `m`, all consecutive, and is at
      `cur`. */
  ghost predicate InFragment(fat: seq<nat>, cs: seq<nat>, k: nat, m: nat, cur: nat) {
    && k <= m <= |cs| && Chains.IsChain(fat, cs)
    && (if m < |cs| then cur == cs[m] else cur == |fat| && !EndsPlainly(fat, cs))
    && (forall j :: k < j < |cs| && j <= m ==> cs[j] == cs[j - 1] + 1)
  }

  /** The walk has come to the end of a fragment, and `next` is where it goes on, or an end mark. */
  ghost predicate FragmentEnds(fat: seq<nat>, cs: seq<nat>, k: nat, m: nat, next: nat) {
    && LinkMap.IsFragment(cs, k, m)
    && if m < |cs| then next == cs[m] && 2 <= next < |fat| else next >= |fat| && EndsPlainly(fat, cs)
  }

  lemma FragmentStep(fat: seq<nat>, cs: seq<nat>, k: nat, m: nat, cur: nat)
    requires InFragment(fat, cs, k, m, cur)
    ensures var v := if Chains.InRange(fat, cur) then fat[cur] else 1;
      if v <= 1 then !EndsPlainly(fat, cs)
      else if v != cur + 1 then FragmentEnds(fat, cs, k, m + 1, v)
      else InFragment(fat, cs, k, m + 1, v) && m < |cs|
  {
    if m < |cs| {
      Chains.ChainInUse(fat, cs, cs[m]);
      if m + 1 < |cs| {
        Chains.LinkedFrom(fat, cs, m + 1);
      }
    }
  }

  lemma PrefixTwice(a: seq<byte>, b: seq<byte>, c: seq<byte>)
    requires a <= b && b <= c
    ensures a <= c
  {
  }

  lemma EmptyCapacity(g: Geometry)
    ensures Capacity(g, []) == 0
  {
  }

  lemma SameSectorBefore(p: nat, ss: nat)
    requires ss > 0 && p % ss != 0
    ensures p > 0 && (p - 1) / ss == p / ss
  {
    DivUnique(p - 1, ss, p / ss, p % ss - 1);
  }

  /** Position `left` bytes into cluster number `k`. */
  lemma SeekPlace(g: Geometry, cs: seq<nat>, k: nat, left: nat)
    requires g.Valid() && k < |cs| && 0 < left <= g.Bcs()
    ensures var p := k * g.Bcs() + left;
      && p <= Capacity(g, cs) && g.ClusterIx(p - 1) == k
      && (p % g.ss != 0 ==>
            && p < Capacity(g, cs) && g.ClusterIx(p) == k
            && FileSector(g, cs, p / g.ss) == ClustSect(g, cs[k]) + left / g.ss)
  {
    hide Geometry.ClusterIx, Capacity, FileSector;
    var p := k * g.Bcs() + left;
    MulMono(g.Bcs(), 0, k);
    ClusterEnds(g, cs, k);
    ByBcs(g, p - 1);
    DivUnique(p - 1, g.Bcs(), k, left - 1);
    if p % g.ss != 0 {
      StepInside(g, cs, p);
      SectorOfCluster(g, cs, p);
      PlaceInCluster(k, left, g.ss, g.csize);
    }
  }

  lemma PlaceInCluster(k: nat, left: nat, ss: nat, csize: nat)
    requires ss > 0 && csize > 0 && 0 < left <= ss * csize
    requires (k * (ss * csize) + left) % ss != 0
    ensures (k * (ss * csize) + left) / ss % csize == left / ss
  {
    var q, r := left / ss, left % ss;
    var p := k * (ss * csize) + left;
    MulAssoc(ss, csize, k);
    MulDist(ss, csize * k, q);
    DivUnique(p, ss, csize * k + q, r);
    if q >= csize {
      MulMono(ss, csize, q);
    }
    DivUnique(csize * k + q, csize, k, q);
  }

  lemma LastOfCluster(g: Geometry, cs: seq<nat>, k: nat)
    requires g.Valid()
    ensures g.Bcs() > 0 && (k + 1) * g.Bcs() > 0 && g.ClusterIx((k + 1) * g.Bcs() - 1) == k
    ensures (k + 1) * g.Bcs() % g.ss == 0
    ensures |cs| * g.Bcs() == Capacity(g, cs)
  {
    hide Geometry.ClusterIx;
    BcsPositive(g);
    ByBcs(g, (k + 1) * g.Bcs() - 1);
    MultipleOfBcs(k, g.ss, g.csize);
    MulAssoc(g.ss, g.csize, |cs|);
  }

  lemma MultipleOfBcs(k: nat, ss: nat, csize: nat)
    requires ss > 0 && ss * csize > 0
    ensures (k + 1) * (ss * csize) > 0 && ((k + 1) * (ss * csize) - 1) / (ss * csize) == k
    ensures (k + 1) * (ss * csize) % ss == 0
  {
    var bcs := ss * csize;
    MulDist(bcs, k, 1);
    DivUnique(k * bcs + bcs - 1, bcs, k, bcs - 1);
    MulAssoc(ss, csize, k + 1);
    DivUnique((k + 1) * bcs, ss, csize * (k + 1), 0);
  }

  /** Cluster number `k` of a file, if it exists, lies within its capacity. */
  lemma ClusterEnds(g: Geometry, cs: seq<nat>, k: nat)
    requires g.Valid()
    ensures k * g.Bcs() + g.Bcs() == (k + 1) * g.Bcs()
    ensures k < |cs| <==> k * g.Bcs() < Capacity(g, cs)
    ensures k < |cs| <==> (k + 1) * g.Bcs() <= Capacity(g, cs)
  {
    LastOfCluster(g, cs, k);
    MulDist(g.Bcs(), k, 1);
    if k < |cs| {
      MulMono(g.Bcs(), k + 1, |cs|);
    } else {
      MulMono(g.Bcs(), |cs|, k);
    }
  }

  lemma ByBcs(g: Geometry, p: nat)
    requires g.Valid()
    ensures g.Bcs() > 0 && g.ClusterIx(p) == p / g.Bcs()
  {
    MulMono(g.ss, 1, g.csize);
    ModSplit(p, g.ss, g.csize);
  }

  lemma BcsPositive(g: Geometry)
    requires g.Valid()
    ensures g.Bcs() > 0
  {
    ByBcs(g, 0);
  }

  lemma SameOrLater(ofs: nat, p: nat, bcs: nat)
    requires bcs > 0 && ofs > 0 && p > 0 && (ofs - 1) / bcs >= (p - 1) / bcs
    ensures 0 <= (p - 1) / bcs * bcs <= p - 1
    ensures (p - 1) / bcs * bcs < ofs
  {
    MulMono(bcs, (p - 1) / bcs, (ofs - 1) / bcs);
  }

  /** A run read from disk and patched with the dirty buffer is the run as seen through the buffer. */
  lemma PatchedRun(g: Geometry, d: Disk, s: nat, cc: nat, dirty: bool, sect: nat, data: seq<byte>)
    requires g.Valid() && g.IsDisk(d) && s + cc <= g.nsect && |data| == g.ss && (dirty ==> sect < g.nsect)
    ensures s <= sect < s + cc ==> 0 <= (sect - s) * g.ss && (sect - s) * g.ss + g.ss <= cc * g.ss
    ensures ReadRun(g, if dirty then d[sect := data] else d, s, cc)
         == if dirty && s <= sect < s + cc then Patched(ReadRun(g, d, s, cc), (sect - s) * g.ss, data)
             else ReadRun(g, d, s, cc)
  {
    hide ReadRun;
    if s <= sect < s + cc {
      RunBound(sect - s, cc, g.ss);
      if dirty {
        var a := (sect - s) * g.ss;
        var r, e := ReadRun(g, d, s, cc), d[sect := data];
        forall i | 0 <= i < cc * g.ss ensures ReadRun(g, e, s, cc)[i] == Patched(r, a, data)[i] {
          PatchIndex(sect - s, i, g.ss);
          PatchedByte(g, d, s, cc, sect, data, i);
        }
        assert ReadRun(g, e, s, cc) == Patched(r, a, data);
      }
    } else if dirty {
      ReadRunFrame(g, d, sect, data, s, cc);
    }
  }

  lemma ReadRunFrame(g: Geometry, d: Disk, sect: nat, data: seq<byte>, s: nat, cc: nat)
    requires g.Valid() && g.IsDisk(d) && s + cc <= g.nsect && |data| == g.ss && sect < g.nsect && !(s <= sect < s + cc)
    ensures ReadRun(g, d[sect := data], s, cc) == ReadRun(g, d, s, cc)
  {
    RunIndices(cc, g.ss);
  }

  lemma PatchedByte(g: Geometry, d: Disk, s: nat, cc: nat, sect: nat, data: seq<byte>, i: nat)
    requires g.Valid() && g.IsDisk(d) && s <= sect < s + cc <= g.nsect && |data| == g.ss
    requires i < cc * g.ss
    ensures ReadRun(g, d[sect := data], s, cc)[i] == if i / g.ss == sect - s then data[i % g.ss]
        else ReadRun(g, d, s, cc)[i]
  {
    RunIndices(cc, g.ss);
  }

  function Patched(r: seq<byte>, a: nat, data: seq<byte>): seq<byte>
    requires a + |data| <= |r|
  {
    r[..a] + data + r[a + |data|..]
  }

  lemma PatchIndex(k: nat, i: nat, ss: nat)
    requires ss > 0
    ensures k * ss <= i < k * ss + ss <==> i / ss == k
    ensures i / ss == k ==> i % ss == i - k * ss
  {
    DivUnique(k * ss, ss, k, 0);
    InRun(k * ss, i, 1, ss);
  }

  lemma SpliceNext(was: seq<byte>, p: nat, data: seq<byte>, a: nat, b: nat, n: nat)
    requires p <= |was| && a <= b <= |data| && n <= b - a
    ensures p + a <= |Splice(was, p, data[..a])|
    ensures Splice(Splice(was, p, data[..a]), p + a, data[a..b][..n]) == Splice(was, p, data[..a + n])
  {
    SpliceTwice(was, p, data[..a], data[a..b][..n]);
    assert data[..a] + data[a..b][..n] == data[..a + n];
  }

  lemma NoSplice(was: seq<byte>, p: nat, data: seq<byte>)
    requires p <= |was|
    ensures Splice(was, p, data[..0]) == was
  {
  }

  lemma WholeSectors(n: nat, cc: nat, ss: nat)
    requires ss > 0 && cc <= n / ss
    ensures ss * cc <= n && ss * cc == cc * ss
    ensures cc > 0 ==> ss * cc > 0
  {
    MulMono(ss, cc, n / ss);
    if cc > 0 {
      MulMono(ss, 1, cc);
    }
  }

  /** Away from cluster boundaries, the byte before the file pointer is in the same cluster. */
  lemma StepInside(g: Geometry, cs: seq<nat>, p: nat)
    requires g.Valid() && p <= Capacity(g, cs) && (p % g.ss != 0 || p / g.ss % g.csize != 0)
    ensures p > 0 && g.ClusterIx(p - 1) == g.ClusterIx(p) && p < Capacity(g, cs)
  {
    StepInsideArith(p, g.ss, g.csize);
    HasPosition(g, cs, p);
    HasPosition(g, cs, p - 1);
  }

  lemma StepInsideArith(p: nat, ss: nat, csize: nat)
    requires ss > 0 && csize > 0 && (p % ss != 0 || p / ss % csize != 0)
    ensures p > 0 && (p - 1) / ss / csize == p / ss / csize
  {
    if p % ss != 0 {
      DivUnique(p - 1, ss, p / ss, p % ss - 1);
    } else {
      var j := p / ss;
      MulDist(ss, j, -1);
      DivUnique(p - 1, ss, j - 1, ss - 1);
      DivUnique(j - 1, csize, j / csize, j % csize - 1);
    }
  }

  lemma SectorOfCluster(g: Geometry, cs: seq<nat>, p: nat)
    requires g.Valid() && p < Capacity(g, cs)
    ensures g.ClusterIx(p) < |cs|
    ensures FileSector(g, cs, p / g.ss) == ClustSect(g, cs[g.ClusterIx(p)]) + p / g.ss % g.csize
  {
    HasPosition(g, cs, p);
  }

  lemma WriteRunAt(g: Geometry, d: Disk, s: nat, cc: nat, data: seq<byte>, t: nat)
    requires g.Valid() && g.IsDisk(d) && s + cc <= g.nsect && |data| == cc * g.ss && t < g.nsect
    ensures !(s <= t < s + cc) ==> WriteRun(g, d, s, cc, data)[t] == d[t]
    ensures s <= t < s + cc ==> 0 <= (t - s) * g.ss && (t - s) * g.ss + g.ss <= |data|
    ensures s <= t < s + cc ==> WriteRun(g, d, s, cc, data)[t] == data[(t - s) * g.ss..(t - s) * g.ss + g.ss]
  {
    if s <= t < s + cc {
      RunBound(t - s, cc, g.ss);
    }
  }

  /** Where a run of sectors at position `p` lies, and where it leaves the file pointer. */
  lemma RunPlace(g: Geometry, cs: seq<nat>, p: nat, cc: nat)
    requires g.Valid() && IsLayout(g, cs) && p < Capacity(g, cs)
    requires p % g.ss == 0 && p / g.ss % g.csize + cc <= g.csize && cc > 0
    ensures IsRun(g, cs, p, cc) && p + cc * g.ss <= Capacity(g, cs)
    ensures g.FatEnd() <= FileSector(g, cs, p / g.ss) && FileSector(g, cs, p / g.ss) + cc <= g.nsect
    ensures g.ClusterIx(p + cc * g.ss - 1) == g.ClusterIx(p)
    ensures (p + cc * g.ss) % g.ss == 0 && cc * g.ss > 0
  {
    RunFits(g, cs, p, cc);
    RunArith(p, cc, g.ss, g.csize);
  }

  lemma RunArith(p: nat, cc: nat, ss: nat, csize: nat)
    requires ss > 0 && csize > 0 && p % ss == 0 && p / ss % csize + cc <= csize && cc > 0
    ensures (p + cc * ss) % ss == 0 && cc * ss > 0
    ensures (p + cc * ss - 1) / ss / csize == p / ss / csize
  {
    var j := p / ss;
    assert p == ss * j;
    MulDist(ss, j, cc);
    MulMono(ss, 1, cc);
    DivUnique(p + cc * ss, ss, j + cc, 0);
    MulDist(ss, j + cc, -1);
    DivUnique(p + cc * ss - 1, ss, j + cc - 1, ss - 1);
    DivUnique(j + cc - 1, csize, j / csize, j % csize + cc - 1);
  }

  /** The window shows none of the sectors of the run. */
  lemma WindowApart(g: Geometry, cs: seq<nat>, p: nat, cc: nat, w: nat)
    requires g.Valid() && IsLayout(g, cs) && IsRun(g, cs, p, cc) && !Owns(g, cs, w)
    ensures !(FileSector(g, cs, p / g.ss) <= w < FileSector(g, cs, p / g.ss) + cc)
  {
    hide FileSector, SectorCount, Capacity, IsLayout, Owns;
    SectorIndex(g, cs, p);
    var b := p / g.ss;
    var s := FileSector(g, cs, b);
    if s <= w < s + cc {
      FileSectorRun(g, cs, b, w - s);
      FileSectorAt(g, cs, b + (w - s));
    }
  }

  /** Moving on by `m` bytes without leaving the sector. */
  lemma PartFits(g: Geometry, cs: seq<nat>, p: nat, m: nat)
    requires g.Valid() && p < Capacity(g, cs) && 0 < m <= g.ss - p % g.ss
    ensures p + m <= Capacity(g, cs)
    ensures g.ClusterIx(p + m - 1) == g.ClusterIx(p)
    ensures (p + m) % g.ss != 0 ==> (p + m) / g.ss == p / g.ss
  {
    hide SectorCount, Capacity;
    InSector(p, p + m - 1, g.ss);
    SectorIndex(g, cs, p);
    SectorIndex(g, cs, p + m - 1);
    NextPosition(p, m, g.ss);
  }

  lemma NextPosition(p: nat, m: nat, ss: nat)
    requires ss > 0 && 0 < m <= ss - p % ss
    ensures (p + m) % ss != 0 ==> (p + m) / ss == p / ss
  {
    if m < ss - p % ss {
      InSector(p, p + m, ss);
    } else {
      MulDist(ss, p / ss, 1);
      DivUnique(p + m, ss, p / ss + 1, 0);
    }
  }

  lemma SectorOfPosition(g: Geometry, cs: seq<nat>, p: nat)
    requires g.Valid() && IsLayout(g, cs) && p < Capacity(g, cs)
    ensures p / g.ss < SectorCount(g, cs)
    ensures g.FatEnd() <= g.database <= FileSector(g, cs, p / g.ss) < g.nsect
    ensures Owns(g, cs, FileSector(g, cs, p / g.ss)) && FileSector(g, cs, p / g.ss) != 0
  {
    PositionFits(g, cs, p);
    FileSectorAt(g, cs, p / g.ss);
    AreaBounds(g);
  }

  /** The cluster after the one that ends at position `p`. */
  lemma NextCluster(g: Geometry, cs: seq<nat>, p: nat)
    requires g.Valid() && 0 < p <= Capacity(g, cs) && p % g.ss == 0 && p / g.ss % g.csize == 0
    ensures g.ClusterIx(p - 1) + 1 == g.ClusterIx(p)
    ensures g.ClusterIx(p - 1) < |cs|
  {
    StepBack(p, g.ss, g.csize);
    PositionFits(g, cs, p - 1);
  }

  lemma StepBack(p: nat, ss: nat, csize: nat)
    requires ss > 0 && csize > 0 && p > 0 && p % ss == 0 && p / ss % csize == 0
    ensures (p - 1) / ss / csize + 1 == p / ss / csize
  {
    var j := p / ss;
    var k := j / csize;
    assert p == ss * j && j == csize * k;
    MulDist(ss, j, -1);
    DivUnique(p - 1, ss, j - 1, ss - 1);
    MulDist(csize, k, -1);
    DivUnique(j - 1, csize, k - 1, csize - 1);
  }

  lemma StartOfFile(g: Geometry)
    requires g.Valid()
    ensures g.ClusterIx(0) == 0
  {
  }

  lemma HasPosition(g: Geometry, cs: seq<nat>, p: nat)
    requires g.Valid()
    ensures p < Capacity(g, cs) <==> g.ClusterIx(p) < |cs|
  {
    SectorIndex(g, cs, p);
    ClusterIndex(g, cs, p / g.ss);
  }

  lemma EocFits(g: Geometry)
    requires g.Valid()
    ensures Cut(g.t, MAX_DWORD) >= g.nFatent
  {
    SmallFits(g.t, 0);
  }

  lemma ChainBounds(g: Geometry, fat: seq<nat>, cs: seq<nat>)
    requires g.Valid() && |fat| == g.nFatent && (cs == [] || Chains.IsChain(fat, cs))
    ensures IsLayout(g, cs)
    ensures forall k :: 0 <= k < |cs| ==> 2 <= cs[k] < g.nFatent <= MAX_DWORD
  {
    if cs != [] {
      Chains.Distinct(fat, cs);
    }
  }

  lemma NotInTable(g: Geometry, cs: seq<nat>, s: nat)
    requires g.Valid()
    ensures g.InFat(s) ==> !Owns(g, cs, s)
  {
    AreaBounds(g);
  }

  lemma ExtendView(g: Geometry, d: Disk, e: Disk, cs: seq<nat>, c: nat, n: nat, dirty: bool, sect: nat, data: seq<byte>)
    requires g.Valid() && g.IsDisk(d) && g.IsDisk(e) && TableEdit(g, d, e)
    requires IsLayout(g, cs) && IsLayout(g, cs + [c]) && n <= Capacity(g, cs)
    requires sect != 0 ==> sect < g.nsect && Owns(g, cs, sect)
    requires |data| == g.ss && (dirty ==> sect != 0)
    ensures n <= Capacity(g, cs + [c])
    ensures sect != 0 ==> Owns(g, cs + [c], sect) && e[sect] == d[sect]
    ensures FileBytes(g, if dirty then e[sect := data] else e, cs + [c], n)
         == FileBytes(g, if dirty then d[sect := data] else d, cs, n)
  {
    var v, w := if dirty then d[sect := data] else d, if dirty then e[sect := data] else e;
    if sect != 0 {
      OwnedIsData(g, cs, sect);
    }
    forall s | 0 <= s < g.nsect && Owns(g, cs, s) ensures v[s] == w[s] {
      OwnedIsData(g, cs, s);
    }
    SameSectorsSameBytes(g, v, w, cs, n);
    LongerChain(g, w, cs, c, n);
  }

  lemma PositionFits(g: Geometry, cs: seq<nat>, p: nat)
    requires g.Valid() && p < Capacity(g, cs)
    ensures p / g.ss < SectorCount(g, cs) && p / g.ss / g.csize < |cs|
  {
    SectorIndex(g, cs, p);
    ClusterIndex(g, cs, p / g.ss);
  }

  lemma OwnedIsData(g: Geometry, cs: seq<nat>, s: nat)
    requires g.Valid() && Owns(g, cs, s)
    ensures g.FatEnd() <= g.database <= s
  {
    AreaBounds(g);
  }
}
