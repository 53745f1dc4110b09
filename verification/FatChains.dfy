/**
 What the allocator does to the table, on the numbers alone: cluster chains, the cyclic search for a free
 cluster, removal, and the cached free count (ff.c create_chain and remove_chain).
 */
module FatChains {
  /** `fat` has one entry per cluster number; entries 0 and 1 stand for no cluster. */
  predicate InRange(fat: seq<nat>, c: int) {
    2 <= c < |fat|
  }

  // ---------------------------------------------------------------- chains

  /** `cs` is followed link by link and its last entry is an end mark. */
  ghost predicate IsChain(fat: seq<nat>, cs: seq<nat>) {
    && |cs| > 0
    && (forall i :: 0 <= i < |cs| ==> InRange(fat, cs[i]))
    && (forall i :: 0 <= i < |cs| - 1 ==> fat[cs[i]] == cs[i + 1])
    && fat[cs[|cs| - 1]] >= |fat|
  }

  ghost predicate Ends(fat: seq<nat>, c: nat) {
    exists cs :: IsChain(fat, cs) && cs[0] == c
  }

  predicate IsLink(fat: seq<nat>, c: int) {
    InRange(fat, c) && 0 < fat[c] < |fat|
  }

  /**
   The table is a set of disjoint, acyclic, end-marked chains: the links from any cluster in use lead to an end
   mark, and no two clusters link to the same one.
   */
  ghost predicate Sound(fat: seq<nat>) {
    && (forall c :: InRange(fat, c) && fat[c] != 0 ==> Ends(fat, c))
    && LinksApart(fat)
  }

  ghost predicate LinksApart(fat: seq<nat>) {
    forall c, d :: IsLink(fat, c) && IsLink(fat, d) && c != d ==> fat[c] != fat[d]
  }

  /** A chain that is not the tail of a longer one. */
  ghost predicate IsWhole(fat: seq<nat>, cs: seq<nat>) {
    IsChain(fat, cs) && forall d :: IsLink(fat, d) ==> fat[d] != cs[0]
  }

  /** A chain never comes back to a cluster it has passed. */
  lemma ChainIsAcyclic(fat: seq<nat>, cs: seq<nat>, i: nat, j: nat)
    requires IsChain(fat, cs) && i < j < |cs|
    ensures cs[i] != cs[j]
    decreases |cs| - j
  {
    assert InRange(fat, cs[i + 1]);
    if cs[i] == cs[j] {
      if j + 1 < |cs| {
        ChainIsAcyclic(fat, cs, i + 1, j + 1);
      }
    }
  }

  lemma Distinct(fat: seq<nat>, cs: seq<nat>)
    requires IsChain(fat, cs)
    ensures forall i, j :: 0 <= i < j < |cs| ==> cs[i] != cs[j]
  {
    forall i, j | 0 <= i < j < |cs| ensures cs[i] != cs[j] {
      ChainIsAcyclic(fat, cs, i, j);
    }
  }

  /** Clusters of a chain are in use, and hold neither a free mark nor the error value. */
  lemma ChainInUse(fat: seq<nat>, cs: seq<nat>, c: nat)
    requires IsChain(fat, cs) && c in cs
    ensures InRange(fat, c) && fat[c] >= 2
  {
    var i :| 0 <= i < |cs| && cs[i] == c;
    if i < |cs| - 1 {
      assert InRange(fat, cs[i + 1]);
    }
  }

  lemma ChainFrame(fat: seq<nat>, gat: seq<nat>, cs: seq<nat>)
    requires IsChain(fat, cs) && |gat| == |fat|
    requires forall c :: c in cs && c < |fat| ==> gat[c] == fat[c]
    ensures IsChain(gat, cs)
  {
  }

  // ---------------------------------------------------------------- allocation

  /** Least cluster number in lo..hi whose entry is free or the error value; `hi` if there is none. */
  function LeastLow(fat: seq<nat>, lo: nat, hi: nat): (c: nat)
    requires hi <= |fat|
    ensures lo <= hi ==> lo <= c <= hi
    ensures lo <= c < hi ==> fat[c] <= 1
    ensures forall d :: lo <= d < hi && d < c ==> fat[d] >= 2
    decreases hi - lo
  {
    if lo >= hi then hi else if fat[lo] <= 1 then lo else LeastLow(fat, lo + 1, hi)
  }

  lemma LeastLowIs(fat: seq<nat>, lo: nat, hi: nat, c: nat)
    requires lo <= c < hi <= |fat| && fat[c] <= 1
    requires forall d :: lo <= d < c ==> fat[d] >= 2
    ensures LeastLow(fat, lo, hi) == c
  {
  }

  /** The first such cluster after `scl`, going round once; 0 if there is none. */
  function NextLow(fat: seq<nat>, scl: nat): (c: nat)
    requires 1 <= scl < |fat|
    ensures c == 0 || InRange(fat, c)
    ensures c != 0 ==> fat[c] <= 1
    ensures c == 0 ==> forall d :: InRange(fat, d) ==> fat[d] >= 2
  {
    var a := LeastLow(fat, scl + 1, |fat|);
    if a < |fat| then a else
    var b := LeastLow(fat, 2, scl + 1);
    if b < scl + 1 then b else 0
  }

  /** What the search has ruled out when it stands at `ncl`, before or after the wrap. */
  ghost predicate Searched(fat: seq<nat>, scl: nat, ncl: nat, wrapped: bool) {
    && 1 <= scl < |fat|
    && if wrapped then
         && 1 <= ncl <= scl
         && (forall d :: scl < d < |fat| ==> fat[d] >= 2)
         && (forall d :: 2 <= d <= ncl ==> fat[d] >= 2)
       else
         scl <= ncl < |fat| && forall d :: scl < d <= ncl ==> fat[d] >= 2
  }

  /** Where it stands just before it looks at cluster `c`. */
  ghost predicate Ready(fat: seq<nat>, scl: nat, c: nat, wrapped: bool) {
    InRange(fat, c) && Searched(fat, scl, c - 1, wrapped) && (wrapped ==> c <= scl)
  }

  lemma Advance(fat: seq<nat>, scl: nat, c: nat, wrapped: bool)
    requires Ready(fat, scl, c, wrapped)
    ensures fat[c] >= 2 ==> Searched(fat, scl, c, wrapped)
    ensures fat[c] <= 1 ==> NextLow(fat, scl) == c
    ensures fat[c] >= 2 && c == scl ==> NextLow(fat, scl) == 0
  {
    if fat[c] <= 1 {
      if wrapped {
        LeastLowIs(fat, 2, scl + 1, c);
      } else {
        LeastLowIs(fat, scl + 1, |fat|, c);
      }
    }
  }

  lemma NothingFound(fat: seq<nat>, scl: nat)
    requires 1 <= scl < |fat|
    requires forall d :: scl < d < |fat| ==> fat[d] >= 2
    requires forall d :: 2 <= d <= scl ==> fat[d] >= 2
    ensures NextLow(fat, scl) == 0
  {
  }

  datatype Alloc = Alloc(fat: seq<nat>, last: nat, free: nat)

  const MAX_DWORD := 0xFFFF_FFFF

  /** The table with `c` made the end of a chain that `prev` (if any) now links to. */
  function Link(fat: seq<nat>, prev: nat, c: nat, eoc: nat): (r: seq<nat>)
    requires c < |fat| && prev < |fat|
    ensures |r| == |fat|
  {
    var r := fat[c := eoc];
    if prev == 0 then r else r[prev := c]
  }

  function TakeOne(n: nat, free: nat): nat {
    if free + 2 < n then if free == 0 then MAX_DWORD else free - 1 else free
  }

  function GiveOne(n: nat, free: nat): nat {
    if free + 2 < n then free + 1 else free
  }

  function SearchStart(st: Alloc, clst: nat): nat {
    if clst != 0 then clst else if st.last == 0 || st.last >= |st.fat| then 1 else st.last
  }

  /** The part of create_chain that searches from `scl` on and claims what it finds. */
  function Claim(st: Alloc, clst: nat, scl: nat, eoc: nat): (r: (Alloc, nat))
    requires clst < |st.fat| && 1 <= scl < |st.fat|
    ensures |r.0.fat| == |st.fat|
  {
    var c := NextLow(st.fat, scl);
    if c == 0 then (st, 0)
    else if st.fat[c] == 1 then (st, 1)
    else (Alloc(Link(st.fat, clst, c, eoc), c, TakeOne(|st.fat|, st.free)), c)
  }

  /** create_chain(clst): the new state and the returned value; `eoc` is the end mark as the table stores it. */
  function Create(st: Alloc, clst: nat, eoc: nat): (r: (Alloc, nat))
    requires |st.fat| >= 3
    ensures |r.0.fat| == |st.fat|
  {
    if clst != 0 && (!InRange(st.fat, clst) || st.fat[clst] < 2) then (st, 1)
    else if clst != 0 && st.fat[clst] < |st.fat| then (st, st.fat[clst])
    else Claim(st, clst, SearchStart(st, clst), eoc)
  }

  /** A cluster outside the volume, or one that links to no cluster and ends no chain, is answered with 1. */
  lemma BrokenChainIsRefused(st: Alloc, clst: nat, eoc: nat)
    requires |st.fat| >= 3 && clst != 0
    ensures clst < 2 || clst >= |st.fat| || st.fat[clst] < 2 ==> Create(st, clst, eoc) == (st, 1)
  {
  }

  /** 0 is returned only when no cluster of the volume is free, wherever the search started. */
  lemma NoSpaceMeansNoFreeCluster(st: Alloc, clst: nat, eoc: nat)
    requires |st.fat| >= 3
    requires Create(st, clst, eoc).1 == 0
    ensures Create(st, clst, eoc).0 == st
    ensures forall c :: InRange(st.fat, c) ==> st.fat[c] != 0
  {
  }

  /** On a sound table a search is refused exactly when nothing is free, and takes a free cluster otherwise. */
  lemma AllocatesIffFree(st: Alloc, clst: nat, eoc: nat)
    requires |st.fat| >= 3 && Sound(st.fat)
    requires clst == 0 || (InRange(st.fat, clst) && st.fat[clst] >= |st.fat|)
    ensures var c := Create(st, clst, eoc).1;
      if exists f :: InRange(st.fat, f) && st.fat[f] == 0 then InRange(st.fat, c) && st.fat[c] == 0 else c == 0
  {
    SoundHasNoOnes(st.fat);
  }

  lemma SoundHasNoOnes(fat: seq<nat>)
    requires Sound(fat)
    ensures forall c :: InRange(fat, c) ==> fat[c] != 1
  {
    forall c | InRange(fat, c) && fat[c] != 0 ensures fat[c] != 1 {
      var cs :| IsChain(fat, cs) && cs[0] == c;
      ChainInUse(fat, cs, c);
    }
  }

  /** Links lead to clusters in use. */
  lemma LinkTarget(fat: seq<nat>, c: nat)
    requires Sound(fat) && IsLink(fat, c)
    ensures InRange(fat, fat[c]) && fat[fat[c]] != 0
  {
    var cs :| IsChain(fat, cs) && cs[0] == c;
    assert |cs| > 1 && cs[1] == fat[c];
    ChainInUse(fat, cs, cs[1]);
  }

  /** Two whole chains that share a cluster are the same chain. */
  lemma {:induction false} WholeChainsDisjoint(fat: seq<nat>, cs: seq<nat>, ds: seq<nat>, i: nat, j: nat)
    requires Sound(fat) && IsWhole(fat, cs) && IsWhole(fat, ds)
    requires i < |cs| && j < |ds| && cs[i] == ds[j]
    ensures cs == ds
    decreases i
  {
    if i > 0 && j > 0 {
      LinkedFrom(fat, cs, i);
      LinkedFrom(fat, ds, j);
      WholeChainsDisjoint(fat, cs, ds, i - 1, j - 1);
    } else if i > 0 {
      LinkedFrom(fat, cs, i);
    } else if j > 0 {
      LinkedFrom(fat, ds, j);
    } else {
      ChainFromHead(fat, cs, ds);
    }
  }

  lemma LinkedFrom(fat: seq<nat>, cs: seq<nat>, i: nat)
    requires IsChain(fat, cs) && 0 < i < |cs|
    ensures IsLink(fat, cs[i - 1]) && fat[cs[i - 1]] == cs[i] && cs[i - 1] in cs
  {
    assert InRange(fat, cs[i]);
  }

  /** The head determines the chain. */
  lemma {:induction false} ChainFromHead(fat: seq<nat>, cs: seq<nat>, ds: seq<nat>)
    requires IsChain(fat, cs) && IsChain(fat, ds) && cs[0] == ds[0]
    ensures cs == ds
  {
    if |cs| > 1 && |ds| > 1 {
      TailIsChain(fat, cs, 1);
      TailIsChain(fat, ds, 1);
      ChainFromHead(fat, cs[1..], ds[1..]);
      assert cs == [cs[0]] + cs[1..] && ds == [ds[0]] + ds[1..];
    } else if |cs| > 1 {
      LinkedFrom(fat, cs, 1);
    } else if |ds| > 1 {
      LinkedFrom(fat, ds, 1);
    }
  }

  lemma TailIsChain(fat: seq<nat>, cs: seq<nat>, i: nat)
    requires IsChain(fat, cs) && i < |cs|
    ensures IsChain(fat, cs[i..])
  {
    var ds := cs[i..];
    assert forall k :: 0 <= k < |ds| ==> ds[k] == cs[i + k];
  }

  // ---------------------------------------------------------------- what allocation keeps

  /** A chain without `prev` is not touched when a free cluster is linked behind `prev`. */
  lemma LinkFrame(fat: seq<nat>, prev: nat, c: nat, eoc: nat, cs: seq<nat>)
    requires IsChain(fat, cs) && InRange(fat, c) && fat[c] == 0
    requires prev < |fat| && prev !in cs
    ensures IsChain(Link(fat, prev, c, eoc), cs)
  {
    if c in cs {
      ChainInUse(fat, cs, c);
    }
    ChainFrame(fat, Link(fat, prev, c, eoc), cs);
  }

  lemma StretchedIsChain(fat: seq<nat>, cs: seq<nat>, c: nat, eoc: nat)
    requires IsChain(fat, cs) && InRange(fat, c) && fat[c] == 0 && eoc >= |fat|
    ensures IsChain(Link(fat, cs[|cs| - 1], c, eoc), cs + [c])
  {
    Distinct(fat, cs);
    var ds := cs + [c];
    var gat := Link(fat, cs[|cs| - 1], c, eoc);
    forall i | 0 <= i < |ds| - 1 ensures gat[ds[i]] == ds[i + 1] {
      assert ds[i] in cs;
      ChainInUse(fat, cs, ds[i]);
    }
  }

  /** Linking a free cluster behind an end mark, or behind nothing, keeps the table sound. */
  lemma LinkKeepsSound(fat: seq<nat>, prev: nat, c: nat, eoc: nat)
    requires Sound(fat) && InRange(fat, c) && fat[c] == 0 && eoc >= |fat|
    requires prev == 0 || (InRange(fat, prev) && fat[prev] >= |fat|)
    ensures Sound(Link(fat, prev, c, eoc))
  {
    var gat := Link(fat, prev, c, eoc);
    forall d | InRange(gat, d) && gat[d] != 0 ensures Ends(gat, d) {
      LinkedEnds(fat, prev, c, eoc, d);
    }
    forall d | IsLink(fat, d) ensures fat[d] != c {
      LinkTarget(fat, d);
    }
    LinkKeepsApart(fat, prev, c, eoc);
  }

  lemma LinkKeepsApart(fat: seq<nat>, prev: nat, c: nat, eoc: nat)
    requires LinksApart(fat) && InRange(fat, c) && eoc >= |fat| && prev < |fat|
    requires forall d :: IsLink(fat, d) ==> fat[d] != c
    ensures LinksApart(Link(fat, prev, c, eoc))
  {
    var gat := Link(fat, prev, c, eoc);
    forall d | IsLink(gat, d) && d != prev ensures IsLink(fat, d) && gat[d] == fat[d] {
    }
  }

  lemma LinkedEnds(fat: seq<nat>, prev: nat, c: nat, eoc: nat, d: nat)
    requires Sound(fat) && InRange(fat, c) && fat[c] == 0 && eoc >= |fat|
    requires prev == 0 || (InRange(fat, prev) && fat[prev] >= |fat|)
    requires InRange(fat, d) && Link(fat, prev, c, eoc)[d] != 0
    ensures Ends(Link(fat, prev, c, eoc), d)
  {
    var gat := Link(fat, prev, c, eoc);
    hide IsChain;
    if d == c {
      SingleChain(gat, c);
    } else {
      assert fat[d] != 0;
      hide Link;
      var cs :| IsChain(fat, cs) && cs[0] == d;
      LinkedChainEnds(fat, prev, c, eoc, cs);
    }
  }

  lemma SingleChain(fat: seq<nat>, c: nat)
    requires InRange(fat, c) && fat[c] >= |fat|
    ensures Ends(fat, c)
  {
    assert IsChain(fat, [c]) && [c][0] == c;
  }

  lemma LinkedChainEnds(fat: seq<nat>, prev: nat, c: nat, eoc: nat, cs: seq<nat>)
    requires IsChain(fat, cs) && InRange(fat, c) && fat[c] == 0 && eoc >= |fat|
    requires prev == 0 || (InRange(fat, prev) && fat[prev] >= |fat|)
    ensures Ends(Link(fat, prev, c, eoc), cs[0])
  {
    if prev in cs {
      var i :| 0 <= i < |cs| && cs[i] == prev;
      ChainInUse(fat, cs, prev);
      EndIsLast(fat, cs, i);
      StretchedIsChain(fat, cs, c, eoc);
      assert (cs + [c])[0] == cs[0];
    } else {
      LinkFrame(fat, prev, c, eoc, cs);
    }
  }

  lemma EndIsLast(fat: seq<nat>, cs: seq<nat>, i: nat)
    requires IsChain(fat, cs) && i < |cs| && fat[cs[i]] >= |fat|
    ensures i == |cs| - 1
  {
    if i < |cs| - 1 {
      LinkedFrom(fat, cs, i + 1);
    }
  }

  /** Asking for what follows cluster `k` of a chain: the next cluster, a new one behind the last, or nothing when
      none is free. */
  lemma FollowChain(st: Alloc, cs: seq<nat>, k: nat, eoc: nat)
    requires |st.fat| >= 3 && NoOnes(st.fat, |st.fat|) && eoc >= |st.fat|
    requires IsChain(st.fat, cs) && k < |cs|
    ensures var (st', c) := Create(st, cs[k], eoc);
      if k + 1 < |cs| then c == cs[k + 1] && st' == st
      else if c == 0 then st' == st && Full(st.fat)
      else Extends(st.fat, st'.fat, cs, c)
  {
    var (st', c) := Create(st, cs[k], eoc);
    ChainInUse(st.fat, cs, cs[k]);
    if k + 1 < |cs| {
      LinkedFrom(st.fat, cs, k + 1);
    } else if c != 0 {
      StretchedIsChain(st.fat, cs, c, eoc);
      LinkKeepsNoOnes(st.fat, cs[k], c, eoc);
    }
  }

  lemma StartChain(st: Alloc, eoc: nat)
    requires |st.fat| >= 3 && NoOnes(st.fat, |st.fat|) && eoc >= |st.fat|
    ensures var (st', c) := Create(st, 0, eoc);
      if c == 0 then st' == st && Full(st.fat) else Extends(st.fat, st'.fat, [], c)
  {
    var (st', c) := Create(st, 0, eoc);
    if c != 0 {
      LinkKeepsNoOnes(st.fat, 0, c, eoc);
    }
  }

  /** Both in one: cluster number `i` of the file is asked for. */
  lemma FollowOrStart(st: Alloc, cs: seq<nat>, k: nat, eoc: nat)
    requires |st.fat| >= 3 && NoOnes(st.fat, |st.fat|) && eoc >= |st.fat|
    requires cs == [] || (IsChain(st.fat, cs) && k < |cs|)
    ensures var (st', c) := Create(st, if cs == [] then 0 else cs[k], eoc);
      var i := if cs == [] then 0 else k + 1;
      && (c == 0 ==> Full(st.fat) && i == |cs|)
      && if st'.fat == st.fat then c != 0 ==> i < |cs| && c == cs[i] else
            && c != 0 && i == |cs|
            && Extends(st.fat, st'.fat, cs, c)
  {
    if cs == [] {
      StartChain(st, eoc);
    } else {
      FollowChain(st, cs, k, eoc);
    }
  }

  lemma LinkKeepsNoOnes(fat: seq<nat>, prev: nat, c: nat, eoc: nat)
    requires NoOnes(fat, |fat|) && InRange(fat, c) && prev < |fat| && eoc != 1
    ensures NoOnes(Link(fat, prev, c, eoc), |fat|)
  {
  }

  ghost predicate Full(fat: seq<nat>) {
    forall c :: InRange(fat, c) ==> fat[c] != 0
  }

  /** `gat` is `fat` with the free cluster `c` put behind the chain `cs`. */
  ghost predicate Extends(fat: seq<nat>, gat: seq<nat>, cs: seq<nat>, c: nat) {
    && |gat| == |fat| && InRange(fat, c) && fat[c] == 0
    && IsChain(gat, cs + [c]) && NoOnes(gat, |gat|)
    && (forall d :: 0 <= d < |fat| && d != c && (cs == [] || d != cs[|cs| - 1]) ==> gat[d] == fat[d])
  }

  // ---------------------------------------------------------------- removal

  function Used(fat: seq<nat>): nat {
    |fat| - multiset(fat)[0]
  }

  lemma FreeingUses(fat: seq<nat>, c: nat)
    requires c < |fat| && fat[c] != 0
    ensures Used(fat[c := 0]) == Used(fat) - 1
  {
  }

  /** The loop of remove_chain from cluster `c`: the table and free count it leaves, and whether it reports success. */
  function Unlink(fat: seq<nat>, c: nat, free: nat): (r: (seq<nat>, nat, bool))
    requires InRange(fat, c)
    ensures |r.0| == |fat|
    decreases Used(fat)
  {
    if fat[c] == 0 then (fat, free, true)
    else if fat[c] == 1 then (fat, free, false)
    else
      FreeingUses(fat, c);
      var gat, more := fat[c := 0], GiveOne(|fat|, free);
      if fat[c] < |fat| then Unlink(gat, fat[c], more) else (gat, more, true)
  }

  /** remove_chain(clst, pclst): the new state and whether FR_OK is returned. */
  function Remove(st: Alloc, clst: nat, pclst: nat, eoc: nat): (r: (Alloc, bool))
    ensures |r.0.fat| == |st.fat| && r.0.last == st.last
  {
    if !InRange(st.fat, clst) || (pclst != 0 && !InRange(st.fat, pclst)) then (st, false)
    else
      var fat := if pclst != 0 then st.fat[pclst := eoc] else st.fat;
      var (gat, free, ok) := Unlink(fat, clst, st.free);
      (Alloc(gat, st.last, free), ok)
  }

  /** The table with every cluster of `cs` freed. */
  ghost function Freed(fat: seq<nat>, cs: seq<nat>): (r: seq<nat>)
    ensures |r| == |fat|
  {
    seq(|fat|, i requires 0 <= i < |fat| => if i in cs then 0 else fat[i])
  }

  /** Unlinking from the head of a chain frees that chain, all of it and nothing else. */
  lemma {:induction false} UnlinkChain(fat: seq<nat>, cs: seq<nat>, free: nat)
    requires IsChain(fat, cs)
    ensures Unlink(fat, cs[0], free).0 == Freed(fat, cs)
    ensures Unlink(fat, cs[0], free).1 == if free + 2 >= |fat| then free
        else if free + |cs| + 2 >= |fat| then |fat| - 2 else free + |cs|
    ensures Unlink(fat, cs[0], free).2
    decreases |cs|
  {
    var c := cs[0];
    ChainInUse(fat, cs, c);
    var gat := fat[c := 0];
    if |cs| > 1 {
      Distinct(fat, cs);
      var ds := cs[1..];
      assert forall i :: 0 <= i < |ds| ==> ds[i] == cs[i + 1];
      assert IsChain(gat, ds);
      UnlinkChain(gat, ds, GiveOne(|fat|, free));
      assert cs == [c] + ds;
      assert Freed(gat, ds) == Freed(fat, cs);
    } else {
      assert Freed(fat, cs) == gat;
    }
  }

  /** A chain that starts outside `cs` stays outside when nothing outside links to the head of `cs`. */
  lemma {:induction false} StaysOutside(fat: seq<nat>, cs: seq<nat>, ds: seq<nat>, k: nat)
    requires Sound(fat) && IsChain(fat, cs) && IsChain(fat, ds) && k < |ds|
    requires ds[0] !in cs
    requires forall d :: IsLink(fat, d) && fat[d] == cs[0] ==> d in cs
    ensures ds[k] !in cs
  {
    if k > 0 {
      StaysOutside(fat, cs, ds, k - 1);
      LinkedFrom(fat, ds, k);
      if ds[k] in cs {
        var m :| 0 <= m < |cs| && cs[m] == ds[k];
        if m > 0 {
          LinkedFrom(fat, cs, m);
        }
      }
    }
  }

  /** Freeing such a chain keeps the table sound, and all chains that start outside it. */
  lemma FreeingKeepsSound(fat: seq<nat>, cs: seq<nat>)
    requires Sound(fat) && IsChain(fat, cs)
    requires forall d :: IsLink(fat, d) && fat[d] == cs[0] ==> d in cs
    ensures Sound(Freed(fat, cs))
  {
    var gat := Freed(fat, cs);
    forall d | InRange(gat, d) && gat[d] != 0 ensures Ends(gat, d) {
      var ds :| IsChain(fat, ds) && ds[0] == d;
      FreeingFrame(fat, cs, ds);
    }
    forall d | IsLink(gat, d) ensures IsLink(fat, d) && gat[d] == fat[d] {
    }
  }

  lemma FreeingFrame(fat: seq<nat>, cs: seq<nat>, ds: seq<nat>)
    requires Sound(fat) && IsChain(fat, cs) && IsChain(fat, ds) && ds[0] !in cs
    requires forall d :: IsLink(fat, d) && fat[d] == cs[0] ==> d in cs
    ensures IsChain(Freed(fat, cs), ds)
  {
    forall k | 0 <= k < |ds| ensures ds[k] !in cs {
      StaysOutside(fat, cs, ds, k);
    }
    ChainFrame(fat, Freed(fat, cs), ds);
  }

  /** Ending a chain early, at `p`, splits it in two. */
  lemma SplitKeepsSound(fat: seq<nat>, p: nat, eoc: nat)
    requires Sound(fat) && InRange(fat, p) && fat[p] != 0 && eoc >= |fat|
    ensures Sound(fat[p := eoc])
  {
    var gat := fat[p := eoc];
    forall d | InRange(gat, d) && gat[d] != 0 ensures Ends(gat, d) {
      SplitEnds(fat, p, eoc, d);
    }
    SplitApart(fat, p, eoc);
  }

  lemma SplitEnds(fat: seq<nat>, p: nat, eoc: nat, d: nat)
    requires Sound(fat) && InRange(fat, p) && InRange(fat, d) && fat[d] != 0 && eoc >= |fat|
    ensures Ends(fat[p := eoc], d)
  {
    var cs :| IsChain(fat, cs) && cs[0] == d;
    hide Sound;
    SplitChain(fat, p, eoc, cs);
  }

  lemma SplitApart(fat: seq<nat>, p: nat, eoc: nat)
    requires LinksApart(fat) && InRange(fat, p) && eoc >= |fat|
    ensures LinksApart(fat[p := eoc])
  {
    var gat := fat[p := eoc];
    forall d | IsLink(gat, d) ensures IsLink(fat, d) && gat[d] == fat[d] {
    }
  }

  lemma SplitChain(fat: seq<nat>, p: nat, eoc: nat, cs: seq<nat>)
    requires IsChain(fat, cs) && InRange(fat, p) && eoc >= |fat|
    ensures Ends(fat[p := eoc], cs[0])
    ensures p !in cs ==> IsChain(fat[p := eoc], cs)
  {
    var gat := fat[p := eoc];
    if p in cs {
      var i :| 0 <= i < |cs| && cs[i] == p;
      Distinct(fat, cs);
      var ds := cs[..i + 1];
      assert forall k :: 0 <= k < |ds| ==> ds[k] == cs[k];
      assert IsChain(gat, ds) && ds[0] == cs[0];
    } else {
      ChainFrame(fat, gat, cs);
    }
  }

  // ---------------------------------------------------------------- the cached free count

  /** Number of free clusters. */
  function FreeClusters(fat: seq<nat>): nat {
    if |fat| < 2 then 0 else multiset(fat[2..])[0]
  }

  /** Zero entries, those of the two reserved numbers included. */
  function ZeroEntries(fat: seq<nat>): nat {
    multiset(fat)[0]
  }

  /** A scan of the whole table counts the free clusters exactly when neither reserved entry is zero. */
  lemma ScanIsExactIff(fat: seq<nat>)
    requires |fat| >= 2
    ensures ZeroEntries(fat) == FreeClusters(fat) <==> fat[0] != 0 && fat[1] != 0
    ensures ZeroEntries(fat) == FreeClusters(fat) + (if fat[0] == 0 then 1 else 0) + (if fat[1] == 0 then 1 else 0)
  {
    assert fat == [fat[0], fat[1]] + fat[2..];
  }

  ghost predicate NoOnes(fat: seq<nat>, hi: nat) {
    forall c :: 2 <= c < hi && c < |fat| ==> fat[c] != 1
  }

  lemma OneFound(fat: seq<nat>, c: nat)
    requires InRange(fat, c) && fat[c] == 1
    ensures 1 in fat[2..]
  {
    assert fat[2..][c - 2] == 1;
  }

  lemma NoOneFound(fat: seq<nat>)
    requires |fat| >= 2 && NoOnes(fat, |fat|)
    ensures 1 !in fat[2..] && fat[..|fat|] == fat
  {
  }

  lemma ZerosOfPrefix(fat: seq<nat>, k: nat)
    requires k < |fat|
    ensures ZeroEntries(fat[..k + 1]) == ZeroEntries(fat[..k]) + (if fat[k] == 0 then 1 else 0)
    ensures k >= 2 ==> FreeClusters(fat[..k + 1]) == FreeClusters(fat[..k]) + (if fat[k] == 0 then 1 else 0)
  {
    assert fat[..k + 1] == fat[..k] + [fat[k]];
    if k >= 2 {
      assert fat[..k + 1][2..] == fat[..k][2..] + [fat[k]];
    }
  }

  lemma FreeAfterSet(fat: seq<nat>, c: nat, v: nat)
    requires InRange(fat, c)
    ensures FreeClusters(fat[c := v]) + (if fat[c] == 0 then 1 else 0) == FreeClusters(fat) + (if v == 0 then 1 else 0)
  {
    assert fat[c := v][2..] == fat[2..][c - 2 := v];
  }

  lemma FreeBound(fat: seq<nat>, c: nat)
    requires InRange(fat, c)
    ensures FreeClusters(fat) <= |fat| - 2
    ensures fat[c] != 0 ==> FreeClusters(fat) < |fat| - 2
    ensures fat[c] == 0 ==> 0 < FreeClusters(fat)
  {
    var s := fat[2..];
    assert s[c - 2] == fat[c];
    assert fat[c] in multiset(s);
    CountBound(s, fat[c]);
  }

  lemma {:induction false} CountBound(s: seq<nat>, v: nat)
    ensures multiset(s)[0] <= |s|
    ensures v in s && v != 0 ==> multiset(s)[0] < |s|
  {
    if s != [] {
      assert s == [s[0]] + s[1..];
      CountBound(s[1..], v);
    }
  }

  /** remove_chain keeps an exact free count exact, whatever the table holds. */
  lemma {:induction false} RemoveKeepsCount(fat: seq<nat>, c: nat, free: nat)
    requires InRange(fat, c) && free == FreeClusters(fat)
    ensures Unlink(fat, c, free).1 == FreeClusters(Unlink(fat, c, free).0)
    decreases Used(fat)
  {
    if fat[c] >= 2 {
      FreeingUses(fat, c);
      FreeAfterSet(fat, c, 0);
      FreeBound(fat, c);
      if fat[c] < |fat| {
        RemoveKeepsCount(fat[c := 0], fat[c], free + 1);
      }
    }
  }

  /**
   create_chain keeps an exact count exact if and only if it did not have to allocate on a volume without a
   single cluster in use: there the guard `free_clst < n_fatent - 2` skips the decrement.
   */
  lemma CreateKeepsCountIff(st: Alloc, clst: nat, eoc: nat)
    requires |st.fat| >= 3 && eoc >= |st.fat| && st.free == FreeClusters(st.fat)
    ensures var (st', c) := Create(st, clst, eoc);
      st'.free == FreeClusters(st'.fat) <==> !(clst == 0 && st.free == |st.fat| - 2)
  {
    var (st', c) := Create(st, clst, eoc);
    if clst == 0 && st.free == |st.fat| - 2 {
      forall d | InRange(st.fat, d) ensures st.fat[d] == 0 {
        FreeBound(st.fat, d);
      }
      assert InRange(st.fat, 2);
      FreeAfterSet(st.fat, c, eoc);
    } else if st'.fat != st.fat {
      FreeBound(st.fat, c);
      FreeAfterSet(st.fat, c, eoc);
      if clst != 0 {
        FreeAfterSet(st.fat[c := eoc], clst, c);
        FreeBound(st.fat, clst);
      }
    }
  }

  /** With a cluster in use before, an exact count stays exact, and a cluster stays in use. */
  lemma CreateKeepsCounted(st: Alloc, clst: nat, eoc: nat)
    requires |st.fat| >= 3 && eoc >= |st.fat| && st.free == FreeClusters(st.fat) < |st.fat| - 2
    ensures var st' := Create(st, clst, eoc).0; st'.free == FreeClusters(st'.fat) < |st.fat| - 2
  {
    CreateKeepsCountIff(st, clst, eoc);
    var (st', c) := Create(st, clst, eoc);
    if st'.fat != st.fat { FreeBound(st'.fat, c); }
  }

  /** A cluster that is claimed behind the end of a chain was free. */
  lemma CreateTakesOne(st: Alloc, clst: nat, eoc: nat)
    requires |st.fat| >= 3 && eoc >= |st.fat| && InRange(st.fat, clst) && st.fat[clst] >= |st.fat|
    ensures var (st', c) := Create(st, clst, eoc); st'.fat != st.fat ==>
        FreeClusters(st'.fat) + 1 == FreeClusters(st.fat)
  {
    var (st', c) := Create(st, clst, eoc);
    if st'.fat != st.fat {
      FreeAfterSet(st.fat, c, eoc);
      FreeAfterSet(st.fat[c := eoc], clst, c);
    }
  }

  lemma FullHasNone(fat: seq<nat>)
    requires |fat| >= 2 && Full(fat)
    ensures FreeClusters(fat) == 0
  {
    assert 0 !in fat[2..];
  }

  lemma LinkChanges(fat: seq<nat>, prev: nat, c: nat, eoc: nat)
    requires InRange(fat, c) && fat[c] == 0 && prev < |fat| && eoc >= |fat|
    ensures Link(fat, prev, c, eoc) != fat
  {
    assert Link(fat, prev, c, eoc)[c] != 0;
  }

  lemma SameTableSameState(st: Alloc, clst: nat, eoc: nat)
    requires |st.fat| >= 3 && eoc >= |st.fat| && Create(st, clst, eoc).0.fat == st.fat
    ensures Create(st, clst, eoc).0 == st
  {
    if clst == 0 || (InRange(st.fat, clst) && st.fat[clst] >= |st.fat|) {
      var c := NextLow(st.fat, SearchStart(st, clst));
      if c != 0 && st.fat[c] == 0 { LinkChanges(st.fat, clst, c, eoc); }
    }
  }

  // ---------------------------------------------------------------- runs

  datatype Op = CreateOp(clst: nat) | RemoveOp(clst: nat, pclst: nat)

  function Step(st: Alloc, op: Op, eoc: nat): (r: Alloc)
    requires |st.fat| >= 3
    ensures |r.fat| == |st.fat|
  {
    match op
    case CreateOp(clst) => Create(st, clst, eoc).0
    case RemoveOp(clst, pclst) => Remove(st, clst, pclst, eoc).0
  }

  function Run(st: Alloc, ops: seq<Op>, eoc: nat): (r: Alloc)
    requires |st.fat| >= 3
    ensures |r.fat| == |st.fat|
    decreases |ops|
  {
    if ops == [] then st else Run(Step(st, ops[0], eoc), ops[1..], eoc)
  }

  /**
   What the callers of remove_chain pass: the head of a chain, or a cluster together with the one that links to it.
   Any argument is fine for create_chain.
   */
  ghost predicate Legal(fat: seq<nat>, op: Op) {
    match op
    case CreateOp(_) => true
    case RemoveOp(c, p) =>
      && InRange(fat, c) && fat[c] != 0
      && if p == 0 then forall d :: InRange(fat, d) ==> fat[d] != c else InRange(fat, p) && fat[p] == c
  }

  /** One legal step keeps the table sound and every whole chain that does not hold the cluster named in the step
      whole. */
  lemma StepKeepsChains(st: Alloc, op: Op, eoc: nat)
    requires |st.fat| >= 3 && eoc >= |st.fat| && Sound(st.fat) && Legal(st.fat, op)
    ensures Sound(Step(st, op, eoc).fat)
    ensures forall cs :: IsWhole(st.fat, cs) && op.clst !in cs ==> IsWhole(Step(st, op, eoc).fat, cs)
  {
    match op
    case CreateOp(clst) => CreateKeepsChains(st, clst, eoc);
    case RemoveOp(clst, pclst) => RemoveKeepsChains(st, clst, pclst, eoc);
  }

  lemma CreateKeepsChains(st: Alloc, clst: nat, eoc: nat)
    requires |st.fat| >= 3 && eoc >= |st.fat| && Sound(st.fat)
    ensures Sound(Create(st, clst, eoc).0.fat)
    ensures forall cs :: IsWhole(st.fat, cs) && clst !in cs ==> IsWhole(Create(st, clst, eoc).0.fat, cs)
  {
    var (st', c) := Create(st, clst, eoc);
    if st'.fat != st.fat {
      LinkKeepsSound(st.fat, clst, c, eoc);
      hide Sound, IsWhole, Link;
      forall cs | IsWhole(st.fat, cs) && clst !in cs ensures IsWhole(st'.fat, cs) {
        LinkKeepsWhole(st.fat, clst, c, eoc, cs);
      }
    }
  }

  lemma LinkKeepsWhole(fat: seq<nat>, prev: nat, c: nat, eoc: nat, cs: seq<nat>)
    requires IsWhole(fat, cs) && InRange(fat, c) && fat[c] == 0 && eoc >= |fat| && prev < |fat| && prev !in cs
    ensures IsWhole(Link(fat, prev, c, eoc), cs)
  {
    LinkFrame(fat, prev, c, eoc, cs);
    ChainInUse(fat, cs, cs[0]);
    var gat := Link(fat, prev, c, eoc);
    forall d | IsLink(gat, d) ensures gat[d] != cs[0] {
      if d != prev || prev == 0 { assert IsLink(fat, d); }
    }
  }

  /** A chain stays whole when links only go away. */
  lemma FewerLinksKeepWhole(fat: seq<nat>, gat: seq<nat>, cs: seq<nat>)
    requires IsWhole(fat, cs) && IsChain(gat, cs) && |gat| == |fat|
    requires forall d :: IsLink(gat, d) ==> IsLink(fat, d) && gat[d] == fat[d]
    ensures IsWhole(gat, cs)
  {
  }

  /** remove_chain called as its callers do succeeds, frees exactly the rest of the chain, and harms no other. */
  lemma RemoveKeepsChains(st: Alloc, clst: nat, pclst: nat, eoc: nat)
    requires |st.fat| >= 3 && eoc >= |st.fat| && Sound(st.fat) && Legal(st.fat, RemoveOp(clst, pclst))
    ensures Remove(st, clst, pclst, eoc).1
    ensures Sound(Remove(st, clst, pclst, eoc).0.fat)
    ensures forall ds :: IsWhole(st.fat, ds) && clst !in ds ==> IsWhole(Remove(st, clst, pclst, eoc).0.fat, ds)
  {
    var cs :| IsChain(st.fat, cs) && cs[0] == clst;
    if pclst == 0 {
      RemoveHead(st.fat, cs, st.free);
    } else {
      RemoveTail(st.fat, cs, pclst, eoc, st.free);
    }
  }

  lemma RemoveHead(fat: seq<nat>, cs: seq<nat>, free: nat)
    requires Sound(fat) && IsWhole(fat, cs)
    ensures var r := Unlink(fat, cs[0], free); r.0 == Freed(fat, cs) && r.2
    ensures Sound(Freed(fat, cs))
    ensures forall ds :: IsWhole(fat, ds) && cs[0] !in ds ==> IsWhole(Freed(fat, cs), ds)
  {
    UnlinkChain(fat, cs, free);
    FreeingKeepsSound(fat, cs);
    hide Sound, IsWhole, Unlink, Freed;
    forall ds | IsWhole(fat, ds) && cs[0] !in ds ensures IsWhole(Freed(fat, cs), ds) {
      FreeingKeepsWhole(fat, cs, ds);
    }
  }

  lemma FreeingKeepsWhole(fat: seq<nat>, cs: seq<nat>, ds: seq<nat>)
    requires Sound(fat) && IsWhole(fat, cs) && IsWhole(fat, ds) && cs[0] !in ds
    ensures IsWhole(Freed(fat, cs), ds)
  {
    if ds[0] in cs {
      var i :| 0 <= i < |cs| && cs[i] == ds[0];
      WholeChainsDisjoint(fat, cs, ds, i, 0);
    }
    hide Sound;
    FreeingFrame(fat, cs, ds);
    FewerLinksKeepWhole(fat, Freed(fat, cs), ds);
  }

  lemma RemoveTail(fat: seq<nat>, cs: seq<nat>, p: nat, eoc: nat, free: nat)
    requires Sound(fat) && IsChain(fat, cs) && IsLink(fat, p) && fat[p] == cs[0] && eoc >= |fat|
    ensures var mid := fat[p := eoc]; var r := Unlink(mid, cs[0], free); r.0 == Freed(mid, cs) && r.2
    ensures Sound(Freed(fat[p := eoc], cs))
    ensures forall ds :: IsWhole(fat, ds) && cs[0] !in ds ==> IsWhole(Freed(fat[p := eoc], cs), ds)
  {
    var mid := fat[p := eoc];
    SplitKeepsSound(fat, p, eoc);
    SplitOff(fat, cs, p, eoc);
    RemoveHead(mid, cs, free);
    forall ds | IsWhole(fat, ds) && cs[0] !in ds ensures IsWhole(Freed(mid, cs), ds) {
      SplitElsewhere(fat, cs, p, eoc, ds);
    }
  }

  /** Once `p` is an end mark, what it linked to is a whole chain of its own. */
  lemma SplitOff(fat: seq<nat>, cs: seq<nat>, p: nat, eoc: nat)
    requires LinksApart(fat) && IsChain(fat, cs) && IsLink(fat, p) && fat[p] == cs[0] && eoc >= |fat|
    ensures IsWhole(fat[p := eoc], cs)
  {
    NotInOwnTail(fat, cs, p);
    SplitChain(fat, p, eoc, cs);
    var mid := fat[p := eoc];
    forall d | IsLink(mid, d) ensures mid[d] != cs[0] {
      assert d != p && IsLink(fat, d);
    }
  }

  lemma SplitElsewhere(fat: seq<nat>, cs: seq<nat>, p: nat, eoc: nat, ds: seq<nat>)
    requires IsChain(fat, cs) && IsLink(fat, p) && fat[p] == cs[0] && eoc >= |fat|
    requires IsWhole(fat, ds) && cs[0] !in ds
    ensures IsWhole(fat[p := eoc], ds)
  {
    if p in ds {
      var i :| 0 <= i < |ds| && ds[i] == p;
      if i + 1 < |ds| {
        LinkedFrom(fat, ds, i + 1);
      }
    }
    SplitChain(fat, p, eoc, ds);
    var mid := fat[p := eoc];
    forall d | IsLink(mid, d) ensures mid[d] != ds[0] {
      assert d != p && IsLink(fat, d);
    }
  }

  /** The cluster that links to a chain is not part of it. */
  lemma NotInOwnTail(fat: seq<nat>, cs: seq<nat>, p: nat)
    requires IsChain(fat, cs) && p < |fat| && fat[p] == cs[0]
    ensures p !in cs
  {
    ChainInUse(fat, cs, cs[0]);
    if p in cs {
      var i :| 0 <= i < |cs| && cs[i] == p;
      if i + 1 < |cs| {
        ChainIsAcyclic(fat, cs, 0, i + 1);
      }
    }
  }

  ghost predicate LegalRun(st: Alloc, ops: seq<Op>, eoc: nat)
    requires |st.fat| >= 3
    decreases |ops|
  {
    ops == [] || (Legal(st.fat, ops[0]) && LegalRun(Step(st, ops[0], eoc), ops[1..], eoc))
  }

  /** No step of the run names a cluster of the chain. */
  ghost predicate Untouched(cs: seq<nat>, ops: seq<Op>) {
    forall i :: 0 <= i < |ops| ==> ops[i].clst !in cs
  }

  /**
   Whatever is created and removed, in whatever order, the table stays a set of disjoint, acyclic, end-marked chains,
   and whole chains no step names a cluster of come through.
   */
  lemma {:induction false} RunKeepsChains(st: Alloc, ops: seq<Op>, eoc: nat)
    requires |st.fat| >= 3 && eoc >= |st.fat|
    requires Sound(st.fat) && LegalRun(st, ops, eoc)
    ensures Sound(Run(st, ops, eoc).fat)
    ensures forall cs :: IsWhole(st.fat, cs) && Untouched(cs, ops) ==> IsWhole(Run(st, ops, eoc).fat, cs)
    decreases |ops|
  {
    hide IsWhole, Sound, Step, Legal;
    if ops != [] {
      assert forall cs :: Untouched(cs, ops) ==> Untouched(cs, ops[1..]);
      StepKeepsChains(st, ops[0], eoc);
      RunKeepsChains(Step(st, ops[0], eoc), ops[1..], eoc);
    }
  }

  lemma RemoveStepKeepsCount(st: Alloc, clst: nat, pclst: nat, eoc: nat)
    requires eoc >= |st.fat| && st.free == FreeClusters(st.fat)
    requires InRange(st.fat, pclst) ==> st.fat[pclst] != 0
    ensures Remove(st, clst, pclst, eoc).0.free == FreeClusters(Remove(st, clst, pclst, eoc).0.fat)
  {
    if InRange(st.fat, clst) && (pclst == 0 || InRange(st.fat, pclst)) {
      if pclst != 0 {
        FreeAfterSet(st.fat, pclst, eoc);
      }
      RemoveKeepsCount(if pclst != 0 then st.fat[pclst := eoc] else st.fat, clst, st.free);
    }
  }

  /** No new chain is started while the volume has no cluster in use; no chain is cut behind a free cluster. */
  ghost predicate Countable(st: Alloc, ops: seq<Op>, eoc: nat)
    requires |st.fat| >= 3
    decreases |ops|
  {
    ops == [] ||
    (&& match ops[0] {
          case CreateOp(clst) => !(clst == 0 && FreeClusters(st.fat) == |st.fat| - 2)
          case RemoveOp(_, pclst) => InRange(st.fat, pclst) ==> st.fat[pclst] != 0
        }
     && Countable(Step(st, ops[0], eoc), ops[1..], eoc))
  }

  /** On such runs, over any table, an exact free count stays exact. */
  lemma {:induction false} RunKeepsCount(st: Alloc, ops: seq<Op>, eoc: nat)
    requires |st.fat| >= 3 && eoc >= |st.fat|
    requires st.free == FreeClusters(st.fat) && Countable(st, ops, eoc)
    ensures Run(st, ops, eoc).free == FreeClusters(Run(st, ops, eoc).fat)
    decreases |ops|
  {
    if ops != [] {
      match ops[0] {
        case CreateOp(clst) => CreateKeepsCountIff(st, clst, eoc);
        case RemoveOp(clst, pclst) => RemoveStepKeepsCount(st, clst, pclst, eoc);
      }
      RunKeepsCount(Step(st, ops[0], eoc), ops[1..], eoc);
    }
  }

  /** The volume on which the count goes wrong: three clusters, all free, counted as such. */
  lemma EmptyVolumeLosesCount()
    ensures var st := Alloc([7, 7, 0, 0, 0], 0, 3);
      && st.free == FreeClusters(st.fat)
      && Create(st, 0, 9) == (Alloc([7, 7, 9, 0, 0], 2, 3), 2)
      && FreeClusters([7, 7, 9, 0, 0]) == 2
  {
    var fat: seq<nat> := [7, 7, 0, 0, 0];
    assert fat[2..] == [0, 0, 0];
    assert [7, 7, 9, 0, 0][2..] == [9, 0, 0];
    assert LeastLow(fat, 2, |fat|) == 2;
    assert Link(fat, 0, 2, 9) == [7, 7, 9, 0, 0];
  }
}
