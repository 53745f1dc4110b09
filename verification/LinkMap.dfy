/**
 The cluster link map of fast seek: a chain written down as (length, first cluster) pairs after one item that
 gives the size, with a zero behind the last pair (ff.c clmt_clust and the CREATE_LINKMAP branch of f_lseek).
 */
module LinkMap {
  /** A zero item ends the list of pairs that starts at `p`. */
  predicate Terminated(tbl: seq<nat>, p: nat)
    decreases |tbl| - p
  {
    p < |tbl| && (tbl[p] == 0 || (p + 2 < |tbl| && Terminated(tbl, p + 2)))
  }

  /** `n` consecutive cluster numbers from `c` on. */
  function Consecutive(c: nat, n: nat): (r: seq<nat>)
    ensures |r| == n
  {
    seq(n, i requires 0 <= i < n => c + i)
  }

  /** The clusters described by the pairs from `p` on. */
  function Expand(tbl: seq<nat>, p: nat): seq<nat>
    requires Terminated(tbl, p)
    decreases |tbl| - p
  {
    if tbl[p] == 0 then [] else Consecutive(tbl[p + 1], tbl[p]) + Expand(tbl, p + 2)
  }

  /** clmt_clust: walks the pairs until cluster number `cl` of the file falls into one. */
  function Lookup(tbl: seq<nat>, p: nat, cl: nat): nat
    requires Terminated(tbl, p)
    decreases |tbl| - p
  {
    if tbl[p] == 0 then 0
    else if cl < tbl[p] then cl + tbl[p + 1]
    else Lookup(tbl, p + 2, cl - tbl[p])
  }

  /** Looking a cluster up is indexing the chain the map describes, however it is broken into fragments. */
  lemma {:induction false} LookupIsIndex(tbl: seq<nat>, p: nat, cl: nat)
    requires Terminated(tbl, p)
    ensures Lookup(tbl, p, cl) == if cl < |Expand(tbl, p)| then Expand(tbl, p)[cl] else 0
    decreases |tbl| - p
  {
    if tbl[p] != 0 && cl >= tbl[p] {
      LookupIsIndex(tbl, p + 2, cl - tbl[p]);
    }
  }

  /** The clusters described by the complete pairs between `p` and `q`. */
  function Pairs(tbl: seq<nat>, p: nat, q: nat): seq<nat>
    requires p <= q <= |tbl| && (q - p) % 2 == 0
    decreases q - p
  {
    if p == q then [] else Pairs(tbl, p, q - 2) + Consecutive(tbl[q - 1], tbl[q - 2])
  }

  lemma {:induction false} PairsFrame(tbl: seq<nat>, ubl: seq<nat>, p: nat, q: nat)
    requires p <= q <= |tbl| && q <= |ubl| && (q - p) % 2 == 0 && tbl[p..q] == ubl[p..q]
    ensures Pairs(tbl, p, q) == Pairs(ubl, p, q)
    decreases q - p
  {
    if p < q {
      forall i | p <= i < q ensures tbl[i] == ubl[i] {
        assert tbl[i] == tbl[p..q][i - p] && ubl[i] == ubl[p..q][i - p];
      }
      assert tbl[p..q - 2] == ubl[p..q - 2];
      PairsFrame(tbl, ubl, p, q - 2);
    }
  }

  lemma AddPair(tbl: seq<nat>, t: nat, ncl: nat, tcl: nat)
    requires 1 <= t && t + 1 < |tbl| && (t - 1) % 2 == 0
    ensures Pairs(tbl[t := ncl][t + 1 := tcl], 1, t + 2) == Pairs(tbl, 1, t) + Consecutive(tcl, ncl)
  {
    var ubl := tbl[t := ncl][t + 1 := tcl];
    assert tbl[1..t] == ubl[1..t];
    PairsFrame(tbl, ubl, 1, t);
  }

  /** Pairs without an empty one, closed by a zero, describe what the pairs do. */
  lemma {:induction false} PairsAreExpand(tbl: seq<nat>, p: nat, q: nat)
    requires p <= q < |tbl| && (q - p) % 2 == 0 && tbl[q] == 0
    requires forall i :: p <= i < q && (i - p) % 2 == 0 ==> tbl[i] > 0
    ensures Terminated(tbl, p) && Expand(tbl, p) == Pairs(tbl, p, q)
    decreases q - p
  {
    if p < q {
      PairsAreExpand(tbl, p + 2, q);
      PairsFromLeft(tbl, p, q);
    }
  }

  lemma {:induction false} PairsFromLeft(tbl: seq<nat>, p: nat, q: nat)
    requires p + 2 <= q <= |tbl| && (q - p) % 2 == 0
    ensures Pairs(tbl, p, q) == Consecutive(tbl[p + 1], tbl[p]) + Pairs(tbl, p + 2, q)
    decreases q - p
  {
    hide Consecutive;
    if p + 2 < q {
      PairsFromLeft(tbl, p, q - 2);
      var a, b, c := Consecutive(tbl[p + 1], tbl[p]), Pairs(tbl, p + 2, q - 2), Consecutive(tbl[q - 1], tbl[q - 2]);
      assert Pairs(tbl, p, q) == (a + b) + c && Pairs(tbl, p + 2, q) == b + c;
      hide Pairs;
      assert (a + b) + c == a + (b + c);
    }
  }

  /** Number of runs of consecutive clusters in a chain. */
  function Fragments(cs: seq<nat>): nat {
    if cs == [] then 0
    else if |cs| == 1 then 1
    else Fragments(cs[..|cs| - 1]) + if cs[|cs| - 1] == cs[|cs| - 2] + 1 then 0 else 1
  }

  /** `k` clusters end a fragment of `cs`. */
  ghost predicate Breaks(cs: seq<nat>, k: nat) {
    k <= |cs| && (k == 0 || k == |cs| || cs[k] != cs[k - 1] + 1)
  }

  lemma FragmentsOfPrefix(cs: seq<nat>, m: nat)
    requires m < |cs|
    ensures Fragments(cs[..m + 1]) == Fragments(cs[..m]) + if m > 0 && cs[m] == cs[m - 1] + 1 then 0 else 1
  {
    var ds := cs[..m + 1];
    assert ds[..m] == cs[..m];
  }

  lemma {:induction false} InFragment(cs: seq<nat>, k: nat, m: nat, i: nat)
    requires k <= i < m <= |cs|
    requires forall j :: k < j < m ==> cs[j] == cs[j - 1] + 1
    ensures cs[i] == cs[k] + (i - k)
    decreases i
  {
    if k < i {
      InFragment(cs, k, m, i - 1);
    }
  }

  /** `cs[k..m]` is one whole fragment. */
  ghost predicate IsFragment(cs: seq<nat>, k: nat, m: nat) {
    && k < m <= |cs| && Breaks(cs, m)
    && forall j :: k < j < m ==> cs[j] == cs[j - 1] + 1
  }

  /** A further fragment `cs[k..m]` behind the first `k` clusters. */
  lemma {:induction false} NextFragment(cs: seq<nat>, k: nat, m: nat)
    requires k < m <= |cs| && Breaks(cs, k)
    requires forall j :: k < j < m ==> cs[j] == cs[j - 1] + 1
    ensures Fragments(cs[..m]) == Fragments(cs[..k]) + 1
    decreases m
  {
    FragmentsOfPrefix(cs, m - 1);
    if k < m - 1 {
      NextFragment(cs, k, m - 1);
    }
  }

  lemma FragmentIsConsecutive(cs: seq<nat>, k: nat, m: nat)
    requires k < m <= |cs|
    requires forall j :: k < j < m ==> cs[j] == cs[j - 1] + 1
    ensures cs[..m] == cs[..k] + Consecutive(cs[k], m - k)
  {
    forall i | k <= i < m ensures cs[i] == Consecutive(cs[k], m - k)[i - k] {
      InFragment(cs, k, m, i);
    }
  }
}
