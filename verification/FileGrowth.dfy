/** What a file operation may change on the volume, and what it leaves alone. */
module FileGrowth {
  import opened Arith
  import opened Bytes
  import opened FatEntries
  import opened FatVolume
  import opened FileData
  import Chains = FatChains
  import opened FileSteps

  /** No sector outside the table and the clusters of the file has changed. */
  ghost predicate KeepsOthers(g: Geometry, cs: seq<nat>, d: Disk, e: Disk)
    requires g.Valid() && g.IsDisk(d) && g.IsDisk(e)
  {
    forall s :: 0 <= s < g.nsect && !(g.fatbase <= s < g.FatEnd()) && !Owns(g, cs, s) ==> d[s] == e[s]
  }

  /** The parts of a volume a file operation can touch, and the clusters of the file. */
  datatype Snapshot = Snapshot(fat: seq<nat>, store: Disk, chain: seq<nat>, free: nat)

  /** The cached free count is exact, and some cluster is in use. */
  ghost predicate Counted(a: Snapshot) {
    a.free == Chains.FreeClusters(a.fat) < |a.fat| - 2
  }

  /** From `a` to `b` the file has at most grown by clusters that were free, and nothing of any other file has
      changed. */
  ghost predicate Grows(g: Geometry, a: Snapshot, b: Snapshot)
    requires g.Valid() && g.IsDisk(a.store) && g.IsDisk(b.store)
  {
    && |a.fat| == |b.fat| == g.nFatent && a.chain <= b.chain
    && (forall c :: c in b.chain ==> c in a.chain || (c < |a.fat| && a.fat[c] == 0))
    && (forall c :: 0 <= c < |a.fat| && c !in b.chain ==> b.fat[c] == a.fat[c])
    && KeepsOthers(g, b.chain, a.store, b.store)
    && (Counted(a) ==> Counted(b))
  }

  lemma NothingGrows(g: Geometry, a: Snapshot)
    requires g.Valid() && g.IsDisk(a.store) && |a.fat| == g.nFatent
    ensures Grows(g, a, a)
  {
  }

  /** A sector that holds directory entries, neither in the table nor in a cluster of the file; if it is in a
      cluster at all, that one is in use. */
  ghost predicate IsHome(g: Geometry, fat: seq<nat>, cs: seq<nat>, s: nat)
    requires g.Valid() && |fat| == g.nFatent
  {
    && g.FatEnd() <= s < g.nsect && !Owns(g, cs, s)
    && (s >= g.database ==> var c := (s - g.database) / g.csize + 2; c < g.nFatent ==> fat[c] != 0)
  }

  /** A file that grows leaves such a sector alone, and stays out of it. */
  lemma HomeStays(g: Geometry, a: Snapshot, b: Snapshot, s: nat)
    requires g.Valid() && g.IsDisk(a.store) && g.IsDisk(b.store) && Grows(g, a, b) && IsLayout(g, b.chain)
    requires IsHome(g, a.fat, a.chain, s)
    ensures IsHome(g, b.fat, b.chain, s) && a.store[s] == b.store[s]
  {
    if s >= g.database {
      var c := (s - g.database) / g.csize + 2;
      if c in b.chain { assert g.InRange(c); }
    }
  }

  /** A sector outside table and file can be overwritten without harm to either. */
  lemma EditedElsewhere(g: Geometry, d: Disk, s: nat, data: seq<byte>, cs: seq<nat>, n: nat)
    requires g.Valid() && g.IsDisk(d) && s < g.nsect && |data| == g.ss && !g.InFat(s)
    requires IsLayout(g, cs) && n <= Capacity(g, cs) && !Owns(g, cs, s)
    ensures g.IsDisk(d[s := data]) && Table(g, d[s := data]) == Table(g, d)
    ensures FileBytes(g, d[s := data], cs, n) == FileBytes(g, d, cs, n)
  {
    EditElsewhere(g, d, s, data);
    hide Table, FileBytes;
    SameSectorsSameBytes(g, d, d[s := data], cs, n);
  }

  /** A file keeps its first cluster. */
  lemma StartKept(g: Geometry, a: Snapshot, b: Snapshot)
    requires g.Valid() && g.IsDisk(a.store) && g.IsDisk(b.store) && Grows(g, a, b)
    ensures a.chain != [] ==> b.chain != [] && b.chain[0] == a.chain[0]
  {
  }

  lemma CountedOn(g: Geometry, a: Snapshot, b: Snapshot)
    requires g.Valid() && g.IsDisk(a.store) && g.IsDisk(b.store) && Grows(g, a, b)
    ensures Counted(a) ==> Counted(b)
  {
  }

  lemma GrowsTwice(g: Geometry, a: Snapshot, b: Snapshot, c: Snapshot)
    requires g.Valid() && g.IsDisk(a.store) && g.IsDisk(b.store) && g.IsDisk(c.store)
    requires Grows(g, a, b) && Grows(g, b, c)
    ensures Grows(g, a, c)
  {
    forall k | k in c.chain ensures k in a.chain || (k < |a.fat| && a.fat[k] == 0) {
      if k !in a.chain && k !in b.chain { assert b.fat[k] == a.fat[k]; }
    }
    forall k | 0 <= k < |a.fat| && k !in c.chain ensures k !in b.chain && c.fat[k] == a.fat[k] {
    }
    forall s | 0 <= s < g.nsect && !(g.fatbase <= s < g.FatEnd()) && !Owns(g, c.chain, s)
        ensures a.store[s] == c.store[s] {
      assert !Owns(g, b.chain, s);
    }
  }

  /** The chain and the bytes of any other file come through unchanged. */
  lemma OtherFileUntouched(g: Geometry, a: Snapshot, b: Snapshot, cs: seq<nat>, n: nat)
    requires g.Valid() && g.IsDisk(a.store) && g.IsDisk(b.store) && Grows(g, a, b)
    requires Chains.IsChain(a.fat, cs) && IsLayout(g, cs) && n <= Capacity(g, cs)
    requires forall c :: c in cs ==> c !in a.chain
    ensures Chains.IsChain(b.fat, cs)
    ensures FileBytes(g, a.store, cs, n) == FileBytes(g, b.store, cs, n)
  {
    forall c | c in cs ensures c < |a.fat| && a.fat[c] != 0 && b.fat[c] == a.fat[c] && c !in b.chain {
      Chains.ChainInUse(a.fat, cs, c);
    }
    Chains.ChainFrame(a.fat, b.fat, cs);
    forall s | 0 <= s < g.nsect && Owns(g, cs, s) ensures a.store[s] == b.store[s] {
      OwnedIsData(g, cs, s);
    }
    SameSectorsSameBytes(g, a.store, b.store, cs, n);
  }

  lemma StillCounted(g: Geometry, a: Chains.Alloc, b: Chains.Alloc, d: Disk, e: Disk, cs: seq<nat>, c: nat, prev: nat,
      eoc: nat)
    requires |a.fat| >= 3 && eoc >= |a.fat| && b == Chains.Create(a, prev, eoc).0
    ensures Counted(Snapshot(a.fat, d, cs, a.free)) ==> Counted(Snapshot(b.fat, e, cs + [c], b.free))
  {
    if Counted(Snapshot(a.fat, d, cs, a.free)) { Chains.CreateKeepsCounted(a, prev, eoc); }
  }

  lemma AfterExtend(g: Geometry, fat: seq<nat>, gat: seq<nat>, d: Disk, e: Disk, cs: seq<nat>, c: nat, m: nat, n: nat)
    requires g.Valid() && g.IsDisk(d) && g.IsDisk(e) && TableEdit(g, d, e)
    requires Counted(Snapshot(fat, d, cs, m)) ==> Counted(Snapshot(gat, e, cs + [c], n))
    requires |fat| == g.nFatent && (cs == [] || Chains.IsChain(fat, cs)) && Chains.Extends(fat, gat, cs, c)
    ensures IsLayout(g, cs + [c]) && c !in cs && Chains.IsChain(gat, cs + [c]) && Chains.NoOnes(gat, |gat|)
    ensures Grows(g, Snapshot(fat, d, cs, m), Snapshot(gat, e, cs + [c], n))
  {
    ChainBounds(g, gat, cs + [c]);
    if c in cs {
      Chains.ChainInUse(fat, cs, c);
    }
  }

  lemma WriteRunGrows(g: Geometry, fat: seq<nat>, d: Disk, cs: seq<nat>, p: nat, cc: nat, data: seq<byte>, free: nat)
    requires g.Valid() && g.IsDisk(d) && IsLayout(g, cs) && IsRun(g, cs, p, cc) && |fat| == g.nFatent
    requires FileSector(g, cs, p / g.ss) + cc <= g.nsect && |data| == cc * g.ss
    ensures Grows(g, Snapshot(fat, d, cs, free),
        Snapshot(fat, WriteRun(g, d, FileSector(g, cs, p / g.ss), cc, data), cs, free))
  {
    hide FileSector, SectorCount, Capacity, IsLayout, Owns, WriteRun;
    var s := FileSector(g, cs, p / g.ss);
    var e := WriteRun(g, d, s, cc, data);
    SectorIndex(g, cs, p);
    forall t | 0 <= t < g.nsect && !Owns(g, cs, t) ensures d[t] == e[t] {
      WindowApart(g, cs, p, cc, t);
      WriteRunAt(g, d, s, cc, data, t);
    }
  }

  /** All that holds once a free cluster was put behind a file whose buffer is `data`. */
  lemma Extended(g: Geometry, a: Chains.Alloc, b: Chains.Alloc, d: Disk, e: Disk, cs: seq<nat>, c: nat, prev: nat,
      eoc: nat,
                 n: nat, dirty: bool, sect: nat, data: seq<byte>)
    requires g.Valid() && g.IsDisk(d) && g.IsDisk(e) && TableEdit(g, d, e) && IsLayout(g, cs) && n <= Capacity(g, cs)
    requires |a.fat| == g.nFatent && (cs == [] || Chains.IsChain(a.fat, cs)) && Chains.Extends(a.fat, b.fat, cs, c)
    requires |a.fat| >= 3 && eoc >= |a.fat| && b == Chains.Create(a, prev, eoc).0
    requires |data| == g.ss && (sect == 0 ==> !dirty) && (sect != 0 ==> sect < g.nsect && Owns(g, cs, sect))
    ensures Grows(g, Snapshot(a.fat, d, cs, a.free), Snapshot(b.fat, e, cs + [c], b.free))
    ensures IsLayout(g, cs + [c]) && Chains.IsChain(b.fat, cs + [c]) && Chains.NoOnes(b.fat, |b.fat|)
    ensures n <= Capacity(g, cs + [c]) && (sect != 0 ==> Owns(g, cs + [c], sect) && e[sect] == d[sect])
    ensures FileBytes(g, if dirty then e[sect := data] else e, cs + [c], n)
            == FileBytes(g, if dirty then d[sect := data] else d, cs, n)
  {
    hide Grows, Counted, Chains.Create, TableEdit, IsLayout, Capacity, Owns, Chains.Extends, Chains.NoOnes,
        Chains.IsChain, FileBytes;
    StillCounted(g, a, b, d, e, cs, c, prev, eoc);
    AfterExtend(g, a.fat, b.fat, d, e, cs, c, a.free, b.free);
    ExtendView(g, d, e, cs, c, n, dirty, sect, data);
  }

  // ---------------------------------------------------------------- the table as a whole

  /** A file that grows keeps the table a set of disjoint, acyclic, end-marked chains. */
  lemma GrowsKeepsSound(g: Geometry, a: Snapshot, b: Snapshot)
    requires g.Valid() && g.IsDisk(a.store) && g.IsDisk(b.store) && Grows(g, a, b)
    requires Chains.Sound(a.fat) && IsFile(a) && IsFile(b)
    ensures Chains.Sound(b.fat)
  {
    hide Chains.Sound;
    forall c | Chains.InRange(b.fat, c) && b.fat[c] != 0 ensures Chains.Ends(b.fat, c) {
      StillEnds(a.fat, b.fat, a.chain, b.chain, c);
    }
    StillApart(a.fat, b.fat, a.chain, b.chain);
    ByParts(b.fat);
  }

  lemma ByParts(fat: seq<nat>)
    requires forall c :: Chains.InRange(fat, c) && fat[c] != 0 ==> Chains.Ends(fat, c)
    requires Chains.LinksApart(fat)
    ensures Chains.Sound(fat)
  {
  }

  ghost predicate IsFile(a: Snapshot) {
    a.chain == [] || Chains.IsChain(a.fat, a.chain)
  }

  /** The table has changed at most along the chain `ds`, which is `cs` and clusters that were free. */
  ghost predicate Regrown(fat: seq<nat>, gat: seq<nat>, cs: seq<nat>, ds: seq<nat>) {
    && |gat| == |fat| && cs <= ds
    && (cs == [] || Chains.IsChain(fat, cs)) && (ds == [] || Chains.IsChain(gat, ds))
    && (forall c :: c in ds ==> c in cs || (c < |fat| && fat[c] == 0))
    && (forall c :: 0 <= c < |fat| && c !in ds ==> gat[c] == fat[c])
  }

  lemma StillEnds(fat: seq<nat>, gat: seq<nat>, cs: seq<nat>, ds: seq<nat>, c: nat)
    requires Regrown(fat, gat, cs, ds) && Chains.Sound(fat) && Chains.InRange(gat, c) && gat[c] != 0
    ensures Chains.Ends(gat, c)
  {
    if c in ds {
      var i :| 0 <= i < |ds| && ds[i] == c;
      Chains.TailIsChain(gat, ds, i);
      assert ds[i..][0] == c;
    } else {
      var es :| Chains.IsChain(fat, es) && es[0] == c;
      hide Chains.Sound;
      LeadsOn(fat, gat, cs, ds, es);
    }
  }

  /** A chain of the old table ends in the new one, where it was or along the grown chain. */
  lemma {:induction false} LeadsOn(fat: seq<nat>, gat: seq<nat>, cs: seq<nat>, ds: seq<nat>, es: seq<nat>)
    requires Regrown(fat, gat, cs, ds) && Chains.IsChain(fat, es)
    ensures Chains.Ends(gat, es[0])
  {
    Chains.ChainInUse(fat, es, es[0]);
    if es[0] in ds {
      var i :| 0 <= i < |ds| && ds[i] == es[0];
      Chains.TailIsChain(gat, ds, i);
      assert ds[i..][0] == es[0];
    } else if |es| == 1 {
      Chains.SingleChain(gat, es[0]);
    } else {
      Chains.TailIsChain(fat, es, 1);
      LeadsOn(fat, gat, cs, ds, es[1..]);
      LinkInFront(gat, es[0], es[1]);
    }
  }

  lemma LinkInFront(gat: seq<nat>, c: nat, d: nat)
    requires Chains.InRange(gat, c) && gat[c] == d && Chains.Ends(gat, d)
    ensures Chains.Ends(gat, c)
  {
    var cs :| Chains.IsChain(gat, cs) && cs[0] == d;
    var es := [c] + cs;
    assert es[1..] == cs && forall i :: 0 < i < |es| ==> es[i] == cs[i - 1];
    assert Chains.IsChain(gat, es) && es[0] == c;
  }

  lemma StillApart(fat: seq<nat>, gat: seq<nat>, cs: seq<nat>, ds: seq<nat>)
    requires Regrown(fat, gat, cs, ds) && Chains.Sound(fat)
    ensures Chains.LinksApart(gat)
  {
    forall c, d | Chains.IsLink(gat, c) && Chains.IsLink(gat, d) && c != d ensures gat[c] != gat[d] {
      if gat[c] == gat[d] {
        if c in ds && d in ds {
          TwiceAlong(gat, ds, c, d);
        } else if c in ds {
          AlongAndAside(fat, gat, cs, ds, c, d);
        } else if d in ds {
          AlongAndAside(fat, gat, cs, ds, d, c);
        } else {
          assert Chains.IsLink(fat, c) && Chains.IsLink(fat, d);
        }
      }
    }
  }

  lemma TwiceAlong(gat: seq<nat>, ds: seq<nat>, c: nat, d: nat)
    requires Chains.IsChain(gat, ds) && c in ds && d in ds && Chains.IsLink(gat, c) && gat[c] == gat[d]
    ensures c == d
  {
    Chains.Distinct(gat, ds);
    var i :| 0 <= i < |ds| && ds[i] == c;
    var j :| 0 <= j < |ds| && ds[j] == d;
    assert i + 1 < |ds| && j + 1 < |ds| && ds[i + 1] == ds[j + 1];
  }

  /** No cluster outside the grown chain links to one in it. */
  lemma AlongAndAside(fat: seq<nat>, gat: seq<nat>, cs: seq<nat>, ds: seq<nat>, c: nat, d: nat)
    requires Regrown(fat, gat, cs, ds) && Chains.Sound(fat)
    requires c in ds && d !in ds && Chains.IsLink(gat, c) && Chains.IsLink(gat, d)
    ensures gat[c] != gat[d]
  {
    assert Chains.IsLink(fat, d) && fat[d] == gat[d];
    Chains.LinkTarget(fat, d);
    hide Chains.Sound;
    if gat[c] == gat[d] {
      assert Chains.LinksApart(fat) by { NoTwoLinks(fat); }
      var i := NextAlong(gat, ds, c);
      assert ds[i + 1] == fat[d] && ds[i + 1] in ds;
      SamePlace(fat, gat, cs, ds, i + 1);
      Chains.LinkedFrom(fat, cs, i + 1);
    }
  }

  lemma NoTwoLinks(fat: seq<nat>)
    requires Chains.Sound(fat)
    ensures Chains.LinksApart(fat)
  {
  }

  lemma NextAlong(gat: seq<nat>, ds: seq<nat>, c: nat) returns (i: nat)
    requires Chains.IsChain(gat, ds) && c in ds && Chains.IsLink(gat, c)
    ensures i + 1 < |ds| && ds[i] == c && ds[i + 1] == gat[c]
  {
    i :| 0 <= i < |ds| && ds[i] == c;
  }

  /** A cluster of the grown chain that was in use before is at its old place. */
  lemma SamePlace(fat: seq<nat>, gat: seq<nat>, cs: seq<nat>, ds: seq<nat>, i: nat)
    requires Regrown(fat, gat, cs, ds) && i < |ds| && ds[i] < |fat| && fat[ds[i]] != 0
    ensures i < |cs| && forall j :: 0 <= j <= i ==> cs[j] == ds[j]
  {
    assert ds[i] in ds;
    var j :| 0 <= j < |cs| && cs[j] == ds[i];
    Chains.Distinct(gat, ds);
    assert ds[j] == cs[j];
  }
}
