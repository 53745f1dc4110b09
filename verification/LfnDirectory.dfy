/** The directory functions of ff.c over a table of 32-byte slots: dir_next,
    dir_alloc, dir_register, dir_remove, dir_find, dir_read and f_readdir. */
module LfnDirectory {
  import opened Options
  import opened Bytes
  import opened Arith
  import opened LfnEntries
  import opened LfnListing
  import opened LfnSearch

  datatype Res = Ok | NoFile | Denied

  /** MAX_DIR / SZDIRE: no FAT directory has more slots. */
  const MAX_SLOTS: nat := 0x1_0000

  function Blank(): (e: Entry)
    ensures e[0] == 0
  {
    seq(32, i => 0)
  }

  function Blanks(m: nat): (r: seq<Entry>)
    ensures |r| == m && forall i :: 0 <= i < m ==> r[i] == Blank()
  {
    seq(m, i => Blank())
  }

  /** The short entry dir_register writes. */
  function ShortEntry(sfn: seq<byte>, nt: byte): (e: Entry)
    requires |sfn| == 11
    ensures e[..11] == sfn && e[11] == 0 && e[12] == nt && forall i :: 13 <= i < 32 ==> e[i] == 0
  {
    sfn + [0, nt] + seq(19, i => 0)
  }

  /** Short names as create_name makes them: 0xE5 is replaced, no leading dot. */
  predicate ShortName(sfn: seq<byte>) {
    |sfn| == 11 && sfn[0] != 0 && sfn[0] != DDEM && sfn[0] != 0x2E
  }

  /** `after` lists what `before` does and one item more. */
  ghost predicate OneMore(before: seq<Item>, after: seq<Item>, item: Item) {
    exists m :: 0 <= m <= |before| && after == before[..m] + [item] + before[m..]
  }

  /** The `n` slots up to `i` are all free. */
  ghost predicate RunAt(slots: seq<Entry>, i: nat, n: nat) {
    n <= i + 1 <= |slots| && forall j :: i + 1 - n <= j <= i ==> Free(slots[j])
  }

  ghost predicate NoRunBefore(slots: seq<Entry>, i: nat, n: nat) {
    forall k: nat :: k < i ==> !RunAt(slots, k, n)
  }

  /** `new` is `old` with blank slots behind it. */
  ghost predicate Grown(old_: seq<Entry>, new_: seq<Entry>) {
    |old_| <= |new_| && new_ == old_ + Blanks(|new_| - |old_|)
  }

  lemma GrownTwice(a: seq<Entry>, b: seq<Entry>, c: seq<Entry>)
    requires Grown(a, b) && Grown(b, c)
    ensures Grown(a, c)
  {
  }

  lemma GrownIsTidy(a: seq<Entry>, b: seq<Entry>)
    requires Grown(a, b) && Tidy(a)
    ensures Tidy(b)
  {
  }

  /** Blank slots behind a directory list nothing. */
  lemma {:induction false} GrownReadsAlike(a: seq<Entry>, b: seq<Entry>, k: nat, p: Scan)
    requires Grown(a, b) && k <= |a|
    ensures ReadFrom(a, k, p) == ReadFrom(b, k, p)
    decreases |a| - k
  {
    hide Step, IsShort;
    if k < |a| {
      assert b[k] == a[k];
      if !IsShort(a[k]) && a[k][0] != 0 { GrownReadsAlike(a, b, k + 1, Step(p, a[k], k)); }
    } else if |a| < |b| {
      assert b[k] == Blank();
    }
  }

  lemma {:induction false} GrownListsAlike(a: seq<Entry>, b: seq<Entry>, k: nat, buf: Buffer)
    requires Grown(a, b) && k <= |a|
    ensures Listing(a, k, buf) == Listing(b, k, buf)
    decreases |a| - k
  {
    hide Step, IsShort, ItemOf;
    GrownReadsAlike(a, b, k, Fresh(buf));
    var r := ReadFrom(a, k, Fresh(buf));
    if r.Found? {
      assert a[r.at] == b[r.at];
      GrownListsAlike(a, b, r.at + 1, r.scan.buf);
    }
  }

  /** The first run of free slots leaves no never-used slot before it. */
  lemma FirstRunIsPacked(slots: seq<Entry>, i: nat, n: nat)
    requires Tidy(slots) && n >= 1 && RunAt(slots, i, n) && NoRunBefore(slots, i, n)
    ensures forall k :: 0 <= k < i + 1 - n ==> slots[k][0] != 0
  {
    forall k | 0 <= k < i + 1 - n ensures slots[k][0] != 0 {
      if slots[k][0] == 0 { RunStartsEarlier(slots, k, i, n); }
    }
  }

  lemma RunStartsEarlier(slots: seq<Entry>, k: nat, i: nat, n: nat)
    requires Tidy(slots) && n >= 1 && RunAt(slots, i, n) && k < i + 1 - n && slots[k][0] == 0
    ensures RunAt(slots, i - 1, n)
  {
    forall j | i - n <= j <= i - 1 ensures Free(slots[j]) {
      if k < j { assert slots[j][0] == 0; }
    }
  }

  lemma RunIsTooShort(slots: seq<Entry>, i: nat, m: nat, n: nat)
    requires m < n && i < |slots| && (m <= i ==> !Free(slots[i - m]))
    ensures !RunAt(slots, i, n)
  {
  }

  lemma RunEndsHere(slots: seq<Entry>, i: nat, n: nat)
    requires 1 <= n <= i + 1 <= |slots| && forall j :: i + 1 - n <= j <= i ==> Free(slots[j])
    ensures RunAt(slots, i, n)
  {
  }

  lemma NoRunYet(slots: seq<Entry>, n: nat)
    ensures NoRunBefore(slots, 0, n)
  {
  }

  /** No run ends at or before slot `i`, in the table as it was and as it has grown. */
  lemma NoRunSoFar(was: seq<Entry>, slots: seq<Entry>, i: nat, n: nat)
    requires Grown(was, slots) && i < |was| && NoRunBefore(was, i, n) && !RunAt(was, i, n)
    ensures NoRunBefore(was, i + 1, n) && NoRunBefore(slots, i + 1, n)
  {
    forall k: nat | k < i + 1 ensures !RunAt(slots, k, n) {
      assert !RunAt(was, k, n);
      RunsStay(was, slots, k, n);
    }
  }

  /** A table grown by as many clusters as were taken from the spare ones. */
  ghost predicate Stretched(a: seq<Entry>, spareA: nat, b: seq<Entry>, spareB: nat, per: nat)
    ensures Stretched(a, spareA, b, spareB, per) ==> |a| <= |b| && Grown(a, b)
  {
    Grown(a, b) && spareB <= spareA && |b| - |a| == (spareA - spareB) * per
  }

  lemma NotStretched(a: seq<Entry>, spare: nat, per: nat)
    ensures Stretched(a, spare, a, spare, per)
  {
    GrownNot(a);
  }

  lemma StretchedOn(a: seq<Entry>, spareA: nat, b: seq<Entry>, spareB: nat, c: seq<Entry>, spareC: nat, per: nat)
    requires Stretched(a, spareA, b, spareB, per) && Grown(b, c)
    requires if |c| == |b| then spareC == spareB else spareC + 1 == spareB && |c| == |b| + per
    ensures Stretched(a, spareA, c, spareC, per)
  {
    GrownTwice(a, b, c);
    MulDist(per, spareA - spareB, 1);
  }

  lemma SameSizeSameTable(a: seq<Entry>, spareA: nat, b: seq<Entry>, spareB: nat, per: nat)
    requires Stretched(a, spareA, b, spareB, per) && |a| == |b|
    ensures a == b
  {
  }

  lemma RunsStay(a: seq<Entry>, b: seq<Entry>, k: nat, n: nat)
    requires Grown(a, b) && k < |a|
    ensures RunAt(a, k, n) <==> RunAt(b, k, n)
  {
    assert forall j :: 0 <= j < |a| ==> a[j] == b[j];
  }

  lemma ReadOne(slots: seq<Entry>, k: nat, p: Scan)
    requires k < |slots|
    ensures ReadFrom(slots, k, p)
            == if slots[k][0] == 0 then End(p.buf)
               else if IsShort(slots[k]) then Found(k, p)
               else ReadFrom(slots, k + 1, Step(p, slots[k], k))
    ensures Skipped(slots[k]) ==> Step(p, slots[k], k) == p.(ord := NO_SEQUENCE)
  {
  }

  lemma ReadEnds(slots: seq<Entry>, p: Scan)
    ensures ReadFrom(slots, |slots|, p) == End(p.buf)
  {
  }

  lemma ListOne(slots: seq<Entry>, k: nat, b: Buffer)
    requires k < |slots|
    ensures Listing(slots, k, b) == match ReadFrom(slots, k, Fresh(b))
                                    case End(_) => []
                                    case Found(at, p) => [ItemOf(at, slots[at], p)] + Listing(slots, at + 1, p.buf)
    ensures ReadFrom(slots, k, Fresh(b)).Found? ==> IsShort(slots[ReadFrom(slots, k, Fresh(b)).at])
    ensures forall c: Buffer :: Listing(slots, |slots|, c) == []
  {
    hide ItemOf;
    FoundIsShort(slots, k, Fresh(b));
  }

  lemma {:induction false} FoundIsShort(slots: seq<Entry>, k: nat, p: Scan)
    requires k <= |slots|
    ensures ReadFrom(slots, k, p).Found? ==>
          && ReadFrom(slots, k, p).at < |slots|
          && IsShort(slots[ReadFrom(slots, k, p).at])
    decreases |slots| - k
  {
    hide IsShort, Step;
    if k < |slots| && slots[k][0] != 0 && !IsShort(slots[k]) { FoundIsShort(slots, k + 1, Step(p, slots[k], k)); }
  }

  lemma Joined(a: seq<Item>, x: Item, c: seq<Item>)
    ensures a + ([x] + c) == a + [x] + c
  {
  }

  /** One step of a listing. */
  lemma ListNext(slots: seq<Entry>, k: nat, b: Buffer, item: Option<Item>, ended: bool, next: nat, c: Buffer)
    requires k < |slots| <= MAX_SLOTS && next < |slots| && (|slots| == MAX_SLOTS ==> !IsShort(slots[|slots| - 1]))
    requires match ReadFrom(slots, k, Fresh(b))
             case End(_) => item == None && ended
             case Found(at, p) =>
               && item == Some(ItemOf(at, slots[at], p)) && c == p.buf
               && (at + 1 < |slots| ==> !ended && next == at + 1)
               && (at + 1 == |slots| < MAX_SLOTS ==> ended)
    ensures Listing(slots, k, b) == (if item.Some? then [item.value] else [])
        + (if ended then [] else Listing(slots, next, c))
    ensures ended || next > k
  {
    hide ReadFrom, ItemOf, Listing, IsShort;
    ListOne(slots, k, b);
  }

  /** `after` is `before`, possibly grown, with an object put into free slots. */
  ghost predicate AddsEntry(before: seq<Entry>, after: seq<Entry>, r: nat, n: nat, name: seq<word>, entry: Entry) {
    exists base :: Grown(before, base) && AddsBlock(base, after, r, n, name, entry)
                && forall i :: 0 <= i < r ==> base[i][0] != 0
  }

  lemma RegisteredIsListed(before: seq<Entry>, after: seq<Entry>, r: nat, n: nat, name: seq<word>, entry: Entry,
      buf: Buffer)
    requires AddsEntry(before, after, r, n, name, entry) && Tidy(before)
    ensures n > 0 && OneMore(Listing(before, 0, buf), Listing(after, 0, buf), BlockItem(r, n, name, entry))
    ensures Tidy(after)
  {
    hide Tidy, AddsBlock, Listing, BlockItem, Grown;
    var base :| Grown(before, base) && AddsBlock(base, after, r, n, name, entry) && forall i :: 0 <= i < r ==>
        base[i][0] != 0;
    GrownIsTidy(before, base);
    GrownListsAlike(before, base, 0, buf);
    BlockFits(base, after, r, n, name, entry);
    var pre := BlockIsOneItem(base, after, r, n, name, entry, buf);
    var all, post := Listing(base, 0, buf), Listing(base, r + n, buf);
    assert all[..|pre|] == pre && all[|pre|..] == post;
    BlockStaysTidy(base, after, r, n, name, entry);
  }

  lemma BlockStaysTidy(free: seq<Entry>, full: seq<Entry>, r: nat, n: nat, name: seq<word>, entry: Entry)
    requires AddsBlock(free, full, r, n, name, entry) && Tidy(free) && forall i :: 0 <= i < r ==> free[i][0] != 0
    ensures Tidy(full)
  {
    hide CharOf, GoodName;
    forall i | r <= i < r + n ensures full[i][0] != 0 {
      if i < r + n - 1 { assert IsPart(full[i], name, r + n - 1 - i, SumOf(entry[..11])); }
    }
  }

  /** `after` is `before`, possibly grown, with a short entry put into a free slot. */
  ghost predicate AddsShort(before: seq<Entry>, after: seq<Entry>, at: nat, entry: Entry) {
    exists base :: Grown(before, base) && at < |base| && Free(base[at]) && after == base[at := entry]
                && forall i :: 0 <= i < at ==> base[i][0] != 0
  }

  lemma BlockAdded(before: seq<Entry>, base: seq<Entry>, after: seq<Entry>, r: nat, n: nat, name: seq<word>,
      entry: Entry)
    requires Grown(before, base) && AddsBlock(base, after, r, n, name, entry) && forall i :: 0 <= i < r ==>
        base[i][0] != 0
    ensures AddsEntry(before, after, r, n, name, entry)
  {
  }

  lemma ShortAdded(before: seq<Entry>, base: seq<Entry>, after: seq<Entry>, at: nat, entry: Entry)
    requires Grown(before, base) && at < |base| && Free(base[at]) && after == base[at := entry]
    requires forall i :: 0 <= i < at ==> base[i][0] != 0
    ensures AddsShort(before, after, at, entry)
  {
  }

  lemma ShortIsShort(sfn: seq<byte>, nt: byte)
    requires ShortName(sfn)
    ensures IsShort(ShortEntry(sfn, nt)) && ShortEntry(sfn, nt)[0] != 0
  {
    var e := ShortEntry(sfn, nt);
    assert e[0] == e[..11][0];
  }

  lemma ShortStaysTidy(before: seq<Entry>, after: seq<Entry>, at: nat, entry: Entry)
    requires AddsShort(before, after, at, entry) && Tidy(before) && entry[0] != 0
    ensures Tidy(after)
  {
    var base :| Grown(before, base) && at < |base| && Free(base[at]) && after == base[at := entry]
                && forall i :: 0 <= i < at ==> base[i][0] != 0;
    GrownIsTidy(before, base);
  }

  /** What a short entry in slot `at` is listed as: without a long name, unless the
      slot before belongs to one whose short entry is missing. */
  ghost predicate ShortItem(item: Item, slots: seq<Entry>, at: nat)
    requires at < |slots|
  {
    && item.at == at && item.entry == slots[at]
    && (at == 0 || IsShort(slots[at - 1]) || Skipped(slots[at - 1]) ==> item == Item(at, at, None, slots[at]))
  }

  lemma ShortIsListed(before: seq<Entry>, after: seq<Entry>, at: nat, entry: Entry, buf: Buffer)
    requires AddsShort(before, after, at, entry) && Tidy(before) && IsShort(entry)
    ensures at < |after| && Tidy(after)
    ensures exists item :: ShortItem(item, after, at) && OneMore(Listing(before, 0, buf), Listing(after, 0, buf), item)
  {
    hide Tidy, Listing, Grown, Skipped;
    var base :| Grown(before, base) && at < |base| && Free(base[at]) && after == base[at := entry]
                && forall i :: 0 <= i < at ==> base[i][0] != 0;
    GrownIsTidy(before, base);
    GrownListsAlike(before, base, 0, buf);
    ShortStaysTidy(before, after, at, entry);
    var pre, item := ShortIsOneItem(base, after, at, buf);
    var all, post := Listing(base, 0, buf), Listing(base, at + 1, buf);
    assert all[..|pre|] == pre && all[|pre|..] == post;
    assert OneMore(Listing(before, 0, buf), Listing(after, 0, buf), item);
  }

  lemma GrownNot(slots: seq<Entry>)
    ensures Grown(slots, slots)
  {
    assert slots == slots + Blanks(0);
  }

  lemma {:induction false} GrownFindsAlike(up: word -> word, q: Query, a: seq<Entry>, b: seq<Entry>, k: nat, p: Seek)
    requires Grown(a, b) && k <= |a|
    ensures FindFrom(up, q, a, k, p) == FindFrom(up, q, b, k, p)
    decreases |a| - k
  {
    hide SeekStep, Hits;
    if k < |a| {
      assert b[k] == a[k];
      if !Hits(q, p, a[k]) && a[k][0] != 0 { GrownFindsAlike(up, q, a, b, k + 1, SeekStep(up, q, p, a[k], k)); }
    } else if |a| < |b| {
      assert b[k] == Blank();
    }
  }

  /** A name that was not there is found right after it was stored, in any case,
      unless it has 255 characters and no fitting short name. */
  lemma RegisteredIsFound(up: word -> word, q: Query, before: seq<Entry>, after: seq<Entry>, r: nat, n: nat,
      name: seq<word>, entry: Entry)
    requires UpperCases(up) && !q.noLfn && !NoObject(entry)
    requires AddsEntry(before, after, r, n, name, entry) && Tidy(before)
    requires FindFrom(up, q, before, 0, START) == Miss
    ensures FindFrom(up, q, after, 0, START) == Hit(r + n - 1, Some(r)) <==> Finds(up, q, name, entry)
    ensures FindFrom(up, q, after, 0, START) == Miss <==> !Finds(up, q, name, entry)
  {
    hide Tidy, AddsBlock, FindFrom, Finds, Grown, UpperCases, NoObject;
    var base :| Grown(before, base) && AddsBlock(base, after, r, n, name, entry) && forall i :: 0 <= i < r ==>
        base[i][0] != 0;
    GrownIsTidy(before, base);
    GrownFindsAlike(up, q, before, base, 0, START);
    CreatedIsFound(up, q, base, after, r, n, name, entry);
  }

  lemma ItemRead(at: nat, e: Entry, p: Scan)
    ensures ItemOf(at, e, p) == if p.ord == 0 && p.sum == SumOf(e[..11]) then Item(at, p.blk, Some(NameIn(p.buf)), e)
        else Item(at, at, None, e)
  {
  }

  lemma RoomToGrow(size: nat, step: nat)
    requires step > 0 && size < MAX_SLOTS && size % step == 0 && MAX_SLOTS % step == 0
    ensures size + step <= MAX_SLOTS && (size + step) % step == 0
  {
    var x, y := size / step, MAX_SLOTS / step;
    assert size == step * x && MAX_SLOTS == step * y;
    if x >= y { MulMono(step, y, x); }
    MulMono(step, x + 1, y);
    MulDist(step, x, 1);
    DivUnique(size + step, step, x + 1, 0);
  }

  /** A place in a directory: its slots, the current one, whether reading has come to
      the end, and the clusters the volume has left. */
  datatype Cursor = Cursor(slots: seq<Entry>, at: nat, ended: bool, spare: nat)

  /** What dir_next makes of it, in a directory that grows by `per` slots; 0: not at all. */
  function NextOf(c: Cursor, per: nat, stretch: bool): (Cursor, Res) {
    if c.ended || c.at + 1 >= MAX_SLOTS then (c, NoFile)
    else if c.at + 1 != |c.slots| then (c.(at := c.at + 1), Ok)
    else if per == 0 || !stretch then (c.(ended := true), NoFile)
    else if c.spare == 0 then (c, Denied)
    else (Cursor(c.slots + Blanks(per), c.at + 1, false, c.spare - 1), Ok)
  }

  class Directory {
    var slots: seq<Entry>
    var dptr: nat
    var ended: bool
    /** Where the long-name sequence of the current object starts. */
    var blk: Option<nat>
    const lfnbuf: array<word>
    /** Clusters the volume has left, and slots in each; 0 for the fixed root directory. */
    var spare: nat
    const perCluster: nat

    constructor (slots: seq<Entry>, spare: nat, perCluster: nat)
      requires 0 < |slots| <= MAX_SLOTS
      requires perCluster != 0 ==> |slots| % perCluster == 0 && MAX_SLOTS % perCluster == 0
      ensures Valid() && fresh(lfnbuf) && this.slots == slots
    {
      this.slots, this.spare, this.perCluster := slots, spare, perCluster;
      dptr, ended, blk := 0, false, None;
      lfnbuf := new word[256](i => 0);
    }

    ghost predicate Valid()
      reads this
      ensures Valid() ==> lfnbuf.Length == 256 && dptr < |slots| <= MAX_SLOTS
    {
      lfnbuf.Length == 256 && dptr < |slots| <= MAX_SLOTS
      && (perCluster != 0 ==> |slots| % perCluster == 0 && MAX_SLOTS % perCluster == 0)
    }

    /** dir_sdi to the start. */
    method Rewind()
      requires Valid()
      modifies this`dptr, this`ended
      ensures Valid() && dptr == 0 && !ended
    {
      dptr, ended := 0, false;
    }

    /** dir_next: at the end of the table it adds a blank cluster if asked to.  A
        table of the greatest size ends without `ended` being set. */
    method Next(stretch: bool) returns (res: Res)
      requires Valid()
      modifies this`dptr, this`ended, this`slots, this`spare
      ensures Valid() && Grown(old(slots), slots)
      ensures (Cursor(slots, dptr, ended, spare), res)
          == NextOf(old(Cursor(slots, dptr, ended, spare)), perCluster, stretch)
      ensures res == (if old(ended) || old(dptr) + 1 == MAX_SLOTS then NoFile
                      else if old(dptr) + 1 < |old(slots)| then Ok
                      else if perCluster == 0 || !stretch then NoFile
                      else if old(spare) == 0 then Denied else Ok)
      ensures dptr == if res == Ok then old(dptr) + 1 else old(dptr)
      ensures ended == (old(ended) || (res == NoFile && dptr + 1 < MAX_SLOTS))
      ensures if res == Ok && old(dptr) + 1 == |old(slots)|
              then |slots| == |old(slots)| + perCluster && spare == old(spare) - 1
              else slots == old(slots) && spare == old(spare)
    {
      assert slots == slots + Blanks(0);
      var ofs := dptr + 1;
      if ended || ofs >= MAX_SLOTS { return NoFile; }
      if ofs == |slots| {
        if perCluster == 0 || !stretch {
          ended := true;
          return NoFile;
        }
        if spare == 0 { return Denied; }
        RoomToGrow(|slots|, perCluster);
        spare := spare - 1;
        slots := slots + Blanks(perCluster);
      }
      dptr := ofs;
      return Ok;
    }

    /** dir_alloc: the first run of `nent` free slots, in a table that may grow. */
    method Alloc(nent: nat) returns (res: Res)
      requires Valid() && nent >= 1
      modifies this`dptr, this`ended, this`slots, this`spare
      ensures Valid() && Stretched(old(slots), old(spare), slots, spare, perCluster)
      ensures res == Ok ==> !ended && RunAt(slots, dptr, nent) && NoRunBefore(slots, dptr, nent)
      ensures res != Ok ==>
            && res == Denied && NoRunBefore(slots, |slots|, nent)
            && (perCluster == 0 || spare == 0 || |slots| == MAX_SLOTS)
      ensures |slots| > |old(slots)| ==> NoRunBefore(old(slots), |old(slots)|, nent)
    {
      hide Stretched, RunAt, NoRunBefore;
      Rewind();
      var n := 0;
      NotStretched(slots, spare, perCluster);
      NoRunYet(slots, nent);
      while true
        invariant Valid() && Stretched(old(slots), old(spare), slots, spare, perCluster) && !ended
        invariant n <= dptr && n < nent && NoRunBefore(slots, dptr, nent)
        invariant |slots| > |old(slots)| ==> NoRunBefore(old(slots), |old(slots)|, nent)
        invariant forall j :: dptr - n <= j < dptr ==> Free(slots[j])
        invariant n < dptr ==> !Free(slots[dptr - n - 1])
        decreases MAX_SLOTS - dptr
      {
        ghost var here, was, spares := dptr, slots, spare;
        if Free(slots[dptr]) {
          n := n + 1;
          if n == nent {
            RunEndsHere(slots, dptr, nent);
            return Ok;
          }
        } else {
          n := 0;
        }
        RunIsTooShort(slots, here, n, nent);
        res := Next(true);
        NoRunSoFar(was, slots, here, nent);
        StretchedOn(old(slots), old(spare), was, spares, slots, spare, perCluster);
        if |was| == |old(slots)| { SameSizeSameTable(old(slots), old(spare), was, spares, perCluster); }
        if res != Ok { return Denied; }
      }
    }

    /** dir_find: the search of the source, slot by slot. */
    method Find(up: word -> word, q: Query) returns (hit: bool)
      requires Valid() && |q.fn| == 11
      modifies this
      ensures Valid() && slots == old(slots) && spare == old(spare)
      ensures FindFrom(up, q, slots, 0, START) == if hit then Hit(dptr, blk) else Miss
      ensures hit ==> !ended
      ensures q.noLfn && !q.loss ==> FirstNamed(if hit then Hit(dptr, blk) else Miss, slots, 0, q.fn)
    {
      if q.noLfn && !q.loss {
        ShortSearch(up, q, slots, 0, START);
      }
      hide FirstNamed;
      Rewind();
      var ord, sum: nat := NO_SEQUENCE, 0xFF;
      blk := None;
      ghost var k := 0;
      while true
        invariant Valid() && !ended && dptr == k < |slots| && slots == old(slots) && spare == old(spare)
        invariant FindFrom(up, q, slots, 0, START) == FindFrom(up, q, slots, k, Seek(ord, sum, blk))
        decreases |slots| - k
      {
        var dir := slots[dptr];
        if dir[0] == 0 { return false; }
        ghost var before := Seek(ord, sum, blk);
        hit, ord, sum := Look(up, q, dir, ord, sum);
        if hit { return; }
        assert Seek(ord, sum, blk) == SeekStep(up, q, before, dir, k);
        var res := Next(false);
        k := k + 1;
        if res != Ok { return false; }
      }
    }

    /** What dir_find does with one used slot. */
    method Look(up: word -> word, q: Query, dir: Entry, ord0: nat, sum0: nat) returns (hit: bool, ord: nat, sum: nat)
      requires |q.fn| == 11
      modifies this`blk
      ensures var p := Seek(ord0, sum0, old(blk));
              if Hits(q, p, dir) then hit && blk == old(blk)
              else !hit && Seek(ord, sum, blk) == SeekStep(up, q, p, dir, dptr)
    {
      hide Cmp, SumOf, Attr;
      var c, a := dir[0], Attr(dir);
      ord, sum := ord0, sum0;
      if c == DDEM || (a / 8 % 2 == 1 && a != AM_LFN) {
        ord, blk := NO_SEQUENCE, None;
      } else if a == AM_LFN {
        if !q.noLfn {
          if IsLast(dir) {
            sum := dir[13];
            c := c - LLEF;
            ord := c;
            blk := Some(dptr);
          }
          var same := CmpLfn(up, q.buf, dir);
          ord := if c == ord && sum == dir[13] && same then (ord + 0xFF) % 0x100 else NO_SEQUENCE;
        }
      } else {
        var s := SumSfn(dir);
        if ord == 0 && sum == s { return true, ord, sum; }
        if !q.loss && dir[..11] == q.fn { return true, ord, sum; }
        ord, blk := NO_SEQUENCE, None;
      }
      hit := false;
    }

    /** dir_read: on to the next object. */
    method Read() returns (found: bool)
      requires Valid()
      modifies this, lfnbuf
      ensures Valid() && slots == old(slots) && spare == old(spare)
      ensures old(ended) ==> !found && ended && dptr == old(dptr) && lfnbuf[..] == old(lfnbuf[..])
      ensures !old(ended) ==>
                match ReadFrom(slots, old(dptr), Fresh(old(lfnbuf[..])))
                case End(b) => !found && ended && lfnbuf[..] == b
                case Found(at, p) =>
                  && found && !ended && dptr == at && lfnbuf[..] == p.buf
                  && CurrentItem() == ItemOf(at, slots[at], p)
      ensures !old(ended) ==> FirstReported(if found then Some(CurrentItem()) else None, slots, old(dptr))
    {
      hide ReadFrom, Step, Pick, ItemOf, SumOf, FirstReported;
      ReadsFirstReported(slots, dptr, Fresh(lfnbuf[..]));
      var ord, sum: nat := NO_SEQUENCE, 0xFF;
      ghost var k, start := dptr, 0;
      while !ended
        invariant Valid() && slots == old(slots) && spare == old(spare)
        invariant k <= |slots| && (!ended ==> dptr == k)
        invariant old(ended) ==> ended && dptr == old(dptr) && lfnbuf[..] == old(lfnbuf[..])
        invariant !old(ended) && ended ==> ReadFrom(slots, old(dptr), Fresh(old(lfnbuf[..]))) == End(lfnbuf[..])
        invariant !old(ended) ==>
                    ReadFrom(slots, old(dptr), Fresh(old(lfnbuf[..])))
                    == ReadFrom(slots, k, Scan(ord, sum, start, lfnbuf[..]))
        invariant ord != NO_SEQUENCE ==> blk == Some(start)
        decreases |slots| - k, !ended
      {
        var dir := slots[dptr];
        var c, a := dir[0], Attr(dir);
        ghost var before := Scan(ord, sum, start, lfnbuf[..]);
        ReadOne(slots, k, before);
        if c == 0 {
          ended := true;
          return false;
        }
        if c == DDEM || c == 0x2E || a == 0x08 || a == 0x28 {
          ord := NO_SEQUENCE;
        } else if a == AM_LFN {
          ord, sum, start := Capture(dir, ord, sum, start);
        } else {
          var s := SumSfn(dir);
          if ord != 0 || sum != s { blk := None; }
          ItemRead(k, dir, before);
          return true;
        }
        assert Scan(ord, sum, start, lfnbuf[..]) == Step(before, dir, k);
        OnTo();
        k := k + 1;
        if k == |slots| { ReadEnds(slots, Scan(ord, sum, start, lfnbuf[..])); }
      }
      return false;
    }

    /** dir_next as dir_read uses it: any failure ends the reading. */
    method OnTo()
      requires Valid() && !ended
      modifies this`dptr, this`ended, this`slots, this`spare
      ensures Valid() && slots == old(slots) && spare == old(spare)
      ensures ended == (old(dptr) + 1 == |slots|) && (!ended ==> dptr == old(dptr) + 1)
    {
      var res := Next(false);
      if res != Ok { ended := true; }
    }

    /** What dir_read does with an entry of a long name. */
    method Capture(dir: Entry, ord0: nat, sum0: nat, ghost start0: nat) returns (ord: nat, sum: nat, ghost start: nat)
      requires Valid() && !Skipped(dir)
      requires ord0 != NO_SEQUENCE ==> blk == Some(start0)
      modifies this`blk, lfnbuf
      ensures Scan(ord, sum, start, lfnbuf[..]) == Step(Scan(ord0, sum0, start0, old(lfnbuf[..])), dir, dptr)
      ensures ord != NO_SEQUENCE ==> blk == Some(start)
    {
      hide Pick;
      var c := dir[0];
      ord, sum, start := ord0, sum0, start0;
      if IsLast(dir) {
        sum := dir[13];
        c := c - LLEF;
        ord := c;
        blk, start := Some(dptr), dptr;
      }
      if c == ord && sum == dir[13] {
        var ok := PickLfn(lfnbuf, dir);
        ord := if ok then (ord + 0xFF) % 0x100 else NO_SEQUENCE;
      } else {
        ord := NO_SEQUENCE;
      }
    }

    /** What get_fileinfo reports of the slot dir_read stopped at. */
    ghost function CurrentItem(): Item
      reads this, lfnbuf
      requires Valid()
    {
      match blk
      case Some(top) => Item(dptr, top, Some(NameIn(lfnbuf[..])), slots[dptr])
      case None => Item(dptr, dptr, None, slots[dptr])
    }

    /** f_readdir: the next object, and on to the slot behind it.  In a directory
        of the greatest size the last slot is not left: its object is read again. */
    method ReadDir() returns (item: Option<Item>)
      requires Valid()
      modifies this, lfnbuf
      ensures Valid() && slots == old(slots)
      ensures old(ended) ==> item == None && ended
      ensures !old(ended) ==>
                match ReadFrom(slots, old(dptr), Fresh(old(lfnbuf[..])))
                case End(b) => item == None && ended && lfnbuf[..] == b
                case Found(at, p) =>
                  && item == Some(ItemOf(at, slots[at], p)) && lfnbuf[..] == p.buf
                  && (at + 1 < |slots| ==> !ended && dptr == at + 1)
                  && (at + 1 == |slots| < MAX_SLOTS ==> ended)
                  && (at + 1 == |slots| == MAX_SLOTS ==> !ended && dptr == at)
      ensures !old(ended) ==> FirstReported(item, slots, old(dptr))
    {
      hide ReadFrom, ItemOf, FirstReported;
      var found := Read();
      if !found { return None; }
      item := Some(match blk
                   case Some(top) => Item(dptr, top, Some(GetName()), slots[dptr])
                   case None => Item(dptr, dptr, None, slots[dptr]));
      var _ := Next(false);
    }

    function GetName(): seq<word>
      reads this, lfnbuf
    {
      NameIn(lfnbuf[..])
    }

    /** A whole listing: rewound, then read until nothing comes.  It ends unless the
        directory has the greatest size and its very last slot holds an object. */
    method List() returns (items: seq<Item>)
      requires Valid() && (|slots| == MAX_SLOTS ==> !IsShort(slots[|slots| - 1]))
      modifies this, lfnbuf
      ensures Valid() && slots == old(slots)
      ensures items == Listing(slots, 0, old(lfnbuf[..]))
      ensures ListsExactly(items, slots, 0)
    {
      hide Valid, ReadFrom, ItemOf, Listing, IsShort, ListsExactly, FirstReported;
      ListingIsExact(slots, 0, lfnbuf[..]);
      Rewind();
      items := [];
      ghost var all := Listing(slots, 0, lfnbuf[..]);
      ghost var rest := all;
      while true
        invariant Valid() && slots == old(slots)
        invariant rest == (if ended then [] else Listing(slots, dptr, lfnbuf[..])) && items + rest == all
        decreases if ended then 0 else |slots| - dptr
      {
        ghost var k, b, live := dptr, lfnbuf[..], !ended;
        var item := ReadDir();
        ghost var behind := if ended then [] else Listing(slots, dptr, lfnbuf[..]);
        if live { ListNext(slots, k, b, item, ended, dptr, lfnbuf[..]); }
        if item == None { return; }
        Joined(items, item.value, behind);
        items, rest := items + [item.value], behind;
      }
    }

    /** Stores the parts `m`, `m - 1`, ... 1 of the name in the working buffer, last
        part first, from the current slot on, and stops at the slot behind them. */
    method WriteParts(m: nat, sum: byte)
      requires Valid() && !ended && GoodName(GetName()) && m == (|GetName()| + 12) / 13
      requires dptr + m < |slots|
      modifies this`slots, this`dptr, this`ended, this`spare
      ensures Valid() && !ended && dptr == old(dptr) + m && |slots| == |old(slots)| && spare == old(spare)
      ensures forall i :: 0 <= i < |slots| && !(old(dptr) <= i < dptr) ==> slots[i] == old(slots)[i]
      ensures forall i :: old(dptr) <= i < dptr ==> IsPart(slots[i], GetName(), dptr - i, sum)
    {
      hide IsPart;
      var nent: nat := m;
      while nent > 0
        invariant Valid() && !ended && dptr + nent == old(dptr) + m && |slots| == |old(slots)| && spare == old(spare)
        invariant forall i :: 0 <= i < |slots| && !(old(dptr) <= i < dptr) ==> slots[i] == old(slots)[i]
        invariant forall i :: old(dptr) <= i < dptr ==> IsPart(slots[i], GetName(), old(dptr) + m - i, sum)
      {
        var e := PutLfn(lfnbuf[..], slots[dptr], nent, sum);
        slots := slots[dptr := e];
        var res := Next(false);
        nent := nent - 1;
      }
    }

    /** The numbering of dir_register: the first of 99 short names no object has. */
    method NumberedName(up: word -> word, numbered: nat -> seq<byte>) returns (ok: bool, sfn: seq<byte>)
      requires Valid() && forall i :: ShortName(numbered(i))
      modifies this
      ensures Valid() && slots == old(slots) && spare == old(spare) && ShortName(sfn)
      ensures ok ==> FindFrom(up, Query(lfnbuf[..], sfn, false, true), slots, 0, START) == Miss
      ensures ok ==> FirstNamed(Miss, slots, 0, sfn)
      ensures ok ==> exists i :: 1 <= i < 100 && sfn == numbered(i) && forall j :: 1 <= j < i ==>
          FindFrom(up, Query(lfnbuf[..], numbered(j), false, true), slots, 0, START) != Miss
      ensures !ok ==> forall i :: 1 <= i < 100 ==>
          FindFrom(up, Query(lfnbuf[..], numbered(i), false, true), slots, 0, START) != Miss
    {
      hide FindFrom, FirstNamed;
      sfn := numbered(1);
      for n := 1 to 100
        invariant Valid() && slots == old(slots) && spare == old(spare) && ShortName(sfn)
        invariant forall i :: 1 <= i < n ==>
                    FindFrom(up, Query(lfnbuf[..], numbered(i), false, true), slots, 0, START) != Miss
      {
        sfn := numbered(n);
        var taken := Find(up, Query(lfnbuf[..], sfn, false, true));
        if !taken { return true, sfn; }
      }
      return false, sfn;
    }

    /** The rest of dir_register: slots are allocated, the parts of the long name
        stored if one is needed, then the short entry. */
    method Store(sfn: seq<byte>, long: bool, nt: byte) returns (res: Res)
      requires Valid() && Tidy(slots) && ShortName(sfn) && (long ==> GoodName(GetName()))
      modifies this
      ensures Valid() && (res == Ok || res == Denied)
      ensures res == Ok && long ==>
                var n := (|GetName()| + 12) / 13 + 1;
                n <= dptr + 1 && AddsEntry(old(slots), slots, dptr + 1 - n, n, GetName(), ShortEntry(sfn, nt))
      ensures res == Ok && !long ==> AddsShort(old(slots), slots, dptr, ShortEntry(sfn, nt))
      ensures res == Denied ==>
            && Grown(old(slots), slots)
            && NoRunBefore(slots, |slots|, if long then (|GetName()| + 12) / 13 + 1 else 1)
    {
      hide Tidy, IsPart, IsShort, GoodName, NoRunBefore, Grown, AddsEntry, AddsShort;
      var name := GetName();
      var nent := if long then (|name| + 12) / 13 + 1 else 1;
      res := Alloc(nent);
      if res != Ok { return; }
      ghost var base, r := slots, dptr + 1 - nent;
      GrownIsTidy(old(slots), base);
      FirstRunIsPacked(base, dptr, nent);
      assert forall i :: r <= i <= dptr ==> Free(base[i]);
      if nent > 1 {
        dptr := dptr - (nent - 1);
        var sum := SumSfn(sfn);
        assert sfn[..11] == sfn;
        WriteParts(nent - 1, sum);
      }
      slots := slots[dptr := ShortEntry(sfn, nt)];
      ShortIsShort(sfn, nt);
      if long {
        assert IsBlock(slots, r, nent, name, ShortEntry(sfn, nt));
        BlockAdded(old(slots), base, slots, r, nent, name, ShortEntry(sfn, nt));
      } else {
        ShortAdded(old(slots), base, slots, dptr, ShortEntry(sfn, nt));
      }
    }

    /** dir_register. */
    method Register(up: word -> word, fn: seq<byte>, loss: bool, long: bool, nt: byte, numbered: nat -> seq<byte>)
      returns (res: Res, sfn: seq<byte>)
      requires Valid() && Tidy(slots) && ShortName(fn) && (forall i :: ShortName(numbered(i)))
      requires long ==> GoodName(GetName())
      modifies this
      ensures Valid() && Tidy(slots) && (res == Ok || res == Denied) && ShortName(sfn)
      ensures !loss ==> sfn == fn
      ensures res == Ok && loss ==> FindFrom(up, Query(lfnbuf[..], sfn, false, true), old(slots), 0, START) == Miss
      ensures res == Ok && loss ==> FirstNamed(Miss, old(slots), 0, sfn)
      ensures res == Ok && loss ==> exists i :: 1 <= i < 100 && sfn == numbered(i)
      ensures res == Ok && long ==>
                var n := (|GetName()| + 12) / 13 + 1;
                && n <= dptr + 1
                && AddsEntry(old(slots), slots, dptr + 1 - n, n, GetName(), ShortEntry(sfn, nt))
                && OneMore(Listing(old(slots), 0, lfnbuf[..]), Listing(slots, 0, lfnbuf[..]),
                    BlockItem(dptr + 1 - n, n, GetName(), ShortEntry(sfn, nt)))
      ensures res == Ok && !long ==>
                && AddsShort(old(slots), slots, dptr, ShortEntry(sfn, nt))
                && exists item :: ShortItem(item, slots, dptr)
                    && OneMore(Listing(old(slots), 0, lfnbuf[..]), Listing(slots, 0, lfnbuf[..]), item)
      ensures res == Denied ==> Listing(slots, 0, lfnbuf[..]) == Listing(old(slots), 0, lfnbuf[..])
    {
      hide Tidy, FindFrom, FirstNamed, Listing, OneMore, AddsShort, AddsEntry, BlockItem, ShortItem, NoRunBefore,
          Grown, GoodName;
      sfn := fn;
      GrownNot(slots);
      if loss {
        var ok;
        ok, sfn := NumberedName(up, numbered);
        if !ok { return Denied, sfn; }
      }
      res := Store(sfn, long, nt);
      if res == Denied {
        GrownIsTidy(old(slots), slots);
        GrownListsAlike(old(slots), slots, 0, lfnbuf[..]);
      } else if long {
        var n := (|GetName()| + 12) / 13 + 1;
        RegisteredIsListed(old(slots), slots, dptr + 1 - n, n, GetName(), ShortEntry(sfn, nt), lfnbuf[..]);
      } else {
        ShortIsShort(sfn, nt);
        ShortIsListed(old(slots), slots, dptr, ShortEntry(sfn, nt), lfnbuf[..]);
      }
    }

    /** dir_remove: every slot of the current object, from the start of its long
        name if it has one, is marked deleted. */
    method Remove()
      requires Valid() && !ended && (blk.Some? ==> blk.value <= dptr)
      modifies this
      ensures Valid() && !ended && dptr == old(dptr) && spare == old(spare)
      ensures Deleted(old(slots), slots, if old(blk).Some? then old(blk).value else dptr, dptr)
    {
      var last := dptr;
      if blk.Some? { dptr := blk.value; }
      ghost var first := dptr;
      while true
        invariant Valid() && !ended && first <= dptr <= last && |slots| == |old(slots)| && spare == old(spare)
        invariant forall i :: 0 <= i < |slots| && !(first <= i < dptr) ==> slots[i] == old(slots)[i]
        invariant forall i :: first <= i < dptr ==> slots[i] == old(slots)[i][0 := DDEM]
        decreases last - dptr
      {
        slots := slots[dptr := slots[dptr][0 := DDEM]];
        if dptr >= last { return; }
        var res := Next(false);
      }
    }
  }

  ghost predicate Deleted(before: seq<Entry>, after: seq<Entry>, first: nat, last: nat)
    requires first <= last < |before|
  {
    && |after| == |before|
    && (forall i :: 0 <= i < |after| && !(first <= i <= last) ==> after[i] == before[i])
    && forall i :: first <= i <= last ==> after[i] == before[i][0 := DDEM]
  }

  /** Removing an object that was stored as a block takes its item out of the
      listing and nothing else; the slots are free again. */
  lemma RemovedIsUnlisted(before: seq<Entry>, after: seq<Entry>, r: nat, n: nat, name: seq<word>, entry: Entry,
      buf: Buffer)
    requires GoodName(name) && IsBlock(before, r, n, name, entry) && Tidy(before)
    requires n > 0 && Deleted(before, after, r, r + n - 1)
    ensures OneMore(Listing(after, 0, buf), Listing(before, 0, buf), BlockItem(r, n, name, entry))
    ensures Tidy(after) && forall i :: r <= i < r + n ==> Free(after[i])
  {
    assert before[r + n - 1][0] != 0;
    forall i | 0 <= i < r ensures after[i][0] != 0 {
      assert before[i][0] == after[i][0];
    }
    assert Tidy(after);
    assert AddsBlock(after, before, r, n, name, entry);
    hide Tidy, AddsBlock, Listing, BlockItem, IsBlock;
    var pre := BlockIsOneItem(after, before, r, n, name, entry, buf);
    var all, post := Listing(after, 0, buf), Listing(after, r + n, buf);
    assert all[..|pre|] == pre && all[|pre|..] == post;
  }

  /** The same for an object stored as a short entry alone. */
  lemma RemovedShortIsUnlisted(before: seq<Entry>, after: seq<Entry>, at: nat, buf: Buffer)
    requires at < |before| && IsShort(before[at]) && Tidy(before) && Deleted(before, after, at, at)
    ensures exists item :: ShortItem(item, before, at) && OneMore(Listing(after, 0, buf), Listing(before, 0, buf), item)
    ensures Tidy(after) && Free(after[at])
  {
    forall i | 0 <= i < at ensures after[i][0] != 0 {
      assert before[at][0] != 0;
    }
    GrownNot(after);
    assert before == after[at := before[at]];
    hide Listing, ShortItem, OneMore;
    ShortIsListed(after, before, at, before[at], buf);
  }
}
