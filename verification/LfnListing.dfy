/** What a directory means: the items dir_read finds in its slots, one after
    another, and how a block of slots adds or removes exactly one of them. */
module LfnListing {
  import opened Options
  import opened Bytes
  import opened LfnEntries

  /** The state dir_read carries from slot to slot: the order number it expects,
      the checksum and the place of the sequence, and the working buffer. */
  datatype Scan = Scan(ord: nat, sum: nat, blk: nat, buf: Buffer)

  datatype Stop = End(buf: Buffer) | Found(at: nat, scan: Scan)

  /** An object: the slot of its short entry, the first of its slots, its long
      name if it has one, and the short entry. */
  datatype Item = Item(at: nat, top: nat, name: Option<seq<word>>, entry: Entry)

  const NO_SEQUENCE: nat := 0xFF

  function Fresh(buf: Buffer): Scan { Scan(NO_SEQUENCE, 0xFF, 0, buf) }

  function Attr(e: Entry): nat { e[11] % 0x40 }

  predicate Free(e: Entry) { e[0] == 0 || e[0] == DDEM }

  /** Deleted, a dot entry or a volume label: entries without valid data. */
  predicate Skipped(e: Entry) { e[0] == DDEM || e[0] == 0x2E || Attr(e) == 0x08 || Attr(e) == 0x28 }

  /** A short-name entry dir_read stops at. */
  predicate IsShort(e: Entry) { e[0] != 0 && !Skipped(e) && Attr(e) != AM_LFN }

  function Step(p: Scan, e: Entry, at: nat): Scan {
    if Skipped(e) then p.(ord := NO_SEQUENCE)
    else
      var q := if IsLast(e) then Scan(Ord(e), e[13], at, p.buf) else p;
      if Ord(e) == q.ord && q.sum == e[13] then
        var (ok, b) := Pick(p.buf, e);
        q.(ord := if ok then (q.ord + 0xFF) % 0x100 else NO_SEQUENCE, buf := b)
      else q.(ord := NO_SEQUENCE)
  }

  /** dir_read from slot `k` on. */
  function ReadFrom(slots: seq<Entry>, k: nat, p: Scan): (r: Stop)
    requires k <= |slots|
    ensures r.Found? ==> k <= r.at < |slots| && IsShort(slots[r.at])
    decreases |slots| - k
  {
    if k == |slots| || slots[k][0] == 0 then End(p.buf)
    else if IsShort(slots[k]) then Found(k, p)
    else ReadFrom(slots, k + 1, Step(p, slots[k], k))
  }

  function ItemOf(at: nat, e: Entry, p: Scan): Item {
    if p.ord == 0 && p.sum == SumOf(e[..11]) then Item(at, p.blk, Some(NameIn(p.buf)), e)
    else Item(at, at, None, e)
  }

  function Listing(slots: seq<Entry>, k: nat, buf: Buffer): seq<Item>
    requires k <= |slots|
    decreases |slots| - k
  {
    match ReadFrom(slots, k, Fresh(buf))
    case End(_) => []
    case Found(at, p) => [ItemOf(at, slots[at], p)] + Listing(slots, at + 1, p.buf)
  }

  /** In the terms of the directory format: neither unused nor deleted, no dot entry, no part of a long name, no
      label. */
  ghost predicate Reported(e: Entry) {
    && e[0] != 0x00 && e[0] != 0xE5 && e[0] != 0x2E
    && e[11] % 0x40 != 0x0F && e[11] % 0x40 != 0x08 && e[11] % 0x40 != 0x28
  }

  /** Slot `i` comes before the first one, from `k` on, that was never used. */
  ghost predicate Reached(slots: seq<Entry>, k: nat, i: nat) {
    k <= i < |slots| && forall j :: k <= j <= i ==> slots[j][0] != 0
  }

  /** The items are exactly the reported slots reached from `k` on, in their order. */
  ghost predicate ListsExactly(items: seq<Item>, slots: seq<Entry>, k: nat) {
    && (forall n :: 0 <= n < |items| ==>
          Reached(slots, k, items[n].at) && Reported(slots[items[n].at]) && items[n].entry == slots[items[n].at])
    && (forall m, n :: 0 <= m < n < |items| ==> items[m].at < items[n].at)
    && forall i: nat :: Reached(slots, k, i) && Reported(slots[i]) ==> exists n :: 0 <= n < |items| && items[n].at == i
  }

  /** The item is the first reported slot reached from `k` on, or there is none. */
  ghost predicate FirstReported(item: Option<Item>, slots: seq<Entry>, k: nat) {
    match item
    case None => forall i: nat :: Reached(slots, k, i) ==> !Reported(slots[i])
    case Some(it) =>
      && Reached(slots, k, it.at) && Reported(slots[it.at]) && it.entry == slots[it.at]
      && forall i: nat :: k <= i < it.at ==> !Reported(slots[i])
  }

  function ItemAt(slots: seq<Entry>, s: Stop): Option<Item>
    requires s.Found? ==> s.at < |slots|
  {
    match s
    case End(_) => None
    case Found(at, p) => Some(ItemOf(at, slots[at], p))
  }

  lemma {:induction false} ReadsFirstReported(slots: seq<Entry>, k: nat, p: Scan)
    requires k <= |slots|
    ensures FirstReported(ItemAt(slots, ReadFrom(slots, k, p)), slots, k)
    decreases |slots| - k
  {
    hide Step, SumOf, NameIn;
    if k < |slots| && slots[k][0] != 0 && !IsShort(slots[k]) {
      var q := Step(p, slots[k], k);
      ReadsFirstReported(slots, k + 1, q);
      FirstBehind(ItemAt(slots, ReadFrom(slots, k + 1, q)), slots, k);
    }
  }

  lemma FirstBehind(item: Option<Item>, slots: seq<Entry>, k: nat)
    requires k < |slots| && slots[k][0] != 0 && !Reported(slots[k]) && FirstReported(item, slots, k + 1)
    ensures FirstReported(item, slots, k)
  {
    forall i: nat | k < i ensures Reached(slots, k, i) <==> Reached(slots, k + 1, i) {
    }
  }

  /** What is listed: exactly the slots the directory format makes objects, before the first never used. */
  lemma {:induction false} ListingIsExact(slots: seq<Entry>, k: nat, buf: Buffer)
    requires k <= |slots|
    ensures ListsExactly(Listing(slots, k, buf), slots, k)
    decreases |slots| - k
  {
    hide ItemOf, ReadFrom, ListsExactly, FirstReported;
    var s := ReadFrom(slots, k, Fresh(buf));
    ReadsFirstReported(slots, k, Fresh(buf));
    if s.Found? {
      ListingIsExact(slots, s.at + 1, s.scan.buf);
      ItemIsThere(slots, s.at, s.scan);
      ListsOneMore(ItemOf(s.at, slots[s.at], s.scan), Listing(slots, s.at + 1, s.scan.buf), slots, k);
    } else {
      ListsNothing(slots, k);
    }
  }

  lemma ItemIsThere(slots: seq<Entry>, at: nat, p: Scan)
    requires at < |slots|
    ensures ItemOf(at, slots[at], p).at == at
  {
  }

  lemma ListsNothing(slots: seq<Entry>, k: nat)
    requires FirstReported(None, slots, k)
    ensures ListsExactly([], slots, k)
  {
  }

  lemma ListsOneMore(item: Item, rest: seq<Item>, slots: seq<Entry>, k: nat)
    requires k <= item.at < |slots| && FirstReported(Some(item), slots, k) && ListsExactly(rest, slots, item.at + 1)
    ensures ListsExactly([item] + rest, slots, k)
  {
    hide Reported;
    var items := [item] + rest;
    forall i: nat | item.at < i ensures Reached(slots, k, i) <==> Reached(slots, item.at + 1, i) {
    }
    forall i: nat | Reached(slots, k, i) && Reported(slots[i])
        ensures exists n :: 0 <= n < |items| && items[n].at == i {
      if i == item.at {
        assert items[0].at == i;
      } else {
        var n :| 0 <= n < |rest| && rest[n].at == i;
        assert items[n + 1].at == i;
      }
    }
  }

  /** After the first slot that was never used there is no used one. */
  ghost predicate Tidy(slots: seq<Entry>) {
    forall i, j :: 0 <= i < j < |slots| && slots[i][0] == 0 ==> slots[j][0] == 0
  }

  /** Two scans no later reading can tell apart. */
  ghost predicate Coupled(p: Scan, q: Scan) {
    && p.ord == q.ord < 256
    && (p.ord != NO_SEQUENCE ==> p.sum == q.sum && p.blk == q.blk)
    && (p.ord < 0x40 ==> Agree(p.buf, q.buf, 13 * p.ord))
  }

  lemma StepKeepsCoupled(p: Scan, q: Scan, e: Entry, at: nat)
    requires Coupled(p, q)
    ensures Coupled(Step(p, e, at), Step(q, e, at))
  {
    hide Agree, Pick, Skipped;
    if IsLast(e) || Ord(e) == p.ord { PicksAgree(p.buf, q.buf, e); }
  }

  lemma PicksAgree(b: Buffer, c: Buffer, e: Entry)
    requires !IsLast(e) && Ord(e) < 0x40 ==> Agree(b, c, 13 * Ord(e))
    ensures Pick(b, e).0 == Pick(c, e).0
    ensures Pick(b, e).0 ==> Ord(e) % 0x40 > 0
    ensures Pick(b, e).0 && 0 < Ord(e) < 0x40 ==> Agree(Pick(b, e).1, Pick(c, e).1, 13 * (Ord(e) - 1))
  {
    hide Agree;
    var n := e[0] as int % 0x40;
    assert Ord(e) % 0x40 == n && (Ord(e) < 0x40 ==> Ord(e) == n);
    if LdWord(e, 26) == 0 && n > 0 {
      hide PickFrom, LdWord;
      if IsLast(e) || Ord(e) < 0x40 {
        PickAgrees(b, c, e, 13 * (n - 1), 0, 1, 13 * (n - 1));
      } else {
        PickSucceedsAlike(b, c, e, 13 * (n - 1), 0, 1);
      }
    }
  }

  lemma {:induction false} PickSucceedsAlike(b: Buffer, c: Buffer, e: Entry, i: nat, s: nat, wc: word)
    requires s <= 13
    ensures PickFrom(b, e, i, s, wc).0 == PickFrom(c, e, i, s, wc).0
    decreases 13 - s
  {
    hide CharOf, IsLast;
    if s < 13 {
      if wc != 0 && i < MAX_LFN {
        var u := CharOf(e, s);
        PickSucceedsAlike(b[i := u], c[i := u], e, i + 1, s + 1, u);
      } else if wc == 0 && CharOf(e, s) == 0xFFFF {
        PickSucceedsAlike(b, c, e, i, s + 1, 0);
      }
    }
  }

  ghost predicate SameStop(slots: seq<Entry>, r: Stop, s: Stop)
    requires r.Found? ==> r.at < |slots|
  {
    if r.Found? then s.Found? && s.at == r.at && ItemOf(r.at, slots[r.at], r.scan) == ItemOf(r.at, slots[r.at], s.scan)
    else s.End?
  }

  lemma {:induction false} ReadAgrees(slots: seq<Entry>, k: nat, p: Scan, q: Scan)
    requires k <= |slots| && Coupled(p, q)
    ensures SameStop(slots, ReadFrom(slots, k, p), ReadFrom(slots, k, q))
    decreases |slots| - k
  {
    hide Agree, Step, SumOf, NameIn, Attr, Skipped;
    if k < |slots| && slots[k][0] != 0 {
      if IsShort(slots[k]) {
        if p.ord == 0 { AgreeMeansSameName(p.buf, q.buf); }
      } else {
        StepKeepsCoupled(p, q, slots[k], k);
        ReadAgrees(slots, k + 1, Step(p, slots[k], k), Step(q, slots[k], k));
      }
    }
  }

  /** What the working buffer holds beforehand never shows. */
  lemma {:induction false} ListingIgnoresTheBuffer(slots: seq<Entry>, k: nat, b: Buffer, c: Buffer)
    requires k <= |slots|
    ensures Listing(slots, k, b) == Listing(slots, k, c)
    decreases |slots| - k
  {
    hide ReadFrom, ItemOf;
    ReadAgrees(slots, k, Fresh(b), Fresh(c));
    var r, s := ReadFrom(slots, k, Fresh(b)), ReadFrom(slots, k, Fresh(c));
    if r.Found? { ListingIgnoresTheBuffer(slots, r.at + 1, r.scan.buf, s.scan.buf); }
  }

  /** The slots of an object with a long name: its parts, last one first, then
      the short entry they carry the checksum of. */
  ghost predicate IsBlock(slots: seq<Entry>, r: nat, n: nat, name: seq<word>, entry: Entry) {
    && n == (|name| + 12) / 13 + 1 && r + n <= |slots|
    && slots[r + n - 1] == entry && IsShort(entry)
    && forall i :: r <= i < r + n - 1 ==> IsPart(slots[i], name, r + n - 1 - i, SumOf(entry[..11]))
  }

  /** The item a block reads as: names over 253 characters do not come back. */
  function BlockItem(r: nat, n: nat, name: seq<word>, entry: Entry): Item
    requires n >= 1
  {
    if |name| <= 253 then Item(r + n - 1, r, Some(name), entry) else Item(r + n - 1, r + n - 1, None, entry)
  }

  /** dir_read in the middle of a block, about to read part number `k`. */
  ghost predicate Midway(r: nat, n: nat, name: seq<word>, sum: nat, k: nat, p: Scan) {
    if k + 1 == n then true
    else if |name| <= 253 then p.ord == k && p.sum == sum && p.blk == r && Holds(p.buf, name, 13 * k)
    else p.ord == NO_SEQUENCE
  }

  lemma PartIsRead(r: nat, n: nat, name: seq<word>, sum: byte, k: nat, p: Scan, e: Entry)
    requires GoodName(name) && n == (|name| + 12) / 13 + 1 && 1 <= k < n
    requires IsPart(e, name, k, sum) && Midway(r, n, name, sum, k, p)
    ensures e[0] != 0 && !IsShort(e) && !Skipped(e)
    ensures Midway(r, n, name, sum, k - 1, Step(p, e, r + n - 1 - k))
  {
    hide CharOf, Spread, PickFrom;
    assert IsLast(e) <==> k + 1 == n;
    assert Ord(e) == k && e[0] as int % 0x40 == k;
    if k + 1 == n || |name| <= 253 {
      PickedPart(p.buf, e, name, k, sum, 0, 13 * (k - 1), 1);
    }
  }

  lemma {:induction false} ReadBlock(slots: seq<Entry>, r: nat, n: nat, name: seq<word>, entry: Entry, k: nat, p: Scan)
    requires GoodName(name) && IsBlock(slots, r, n, name, entry) && k < n
    requires Midway(r, n, name, SumOf(entry[..11]), k, p)
    ensures var s := ReadFrom(slots, r + n - 1 - k, p);
            s.Found? && s.at == r + n - 1 && ItemOf(s.at, entry, s.scan) == BlockItem(r, n, name, entry)
    decreases k
  {
    hide Step, IsPart, SumOf, Skipped, Attr;
    var i := r + n - 1 - k;
    if k == 0 {
      if |name| <= 253 {
        hide GoodName;
        HeldName(p.buf, name);
      }
    } else {
      assert IsPart(slots[i], name, k, SumOf(entry[..11]));
      PartIsRead(r, n, name, SumOf(entry[..11]), k, p, slots[i]);
      ReadBlock(slots, r, n, name, entry, k - 1, Step(p, slots[i], i));
    }
  }

  lemma HeldName(b: Buffer, name: seq<word>)
    requires Holds(b, name, 0) && forall i :: 0 <= i < |name| ==> name[i] != 0
    ensures NameIn(b) == name
  {
    NameInIs(b, |name|);
    assert b[..|name|] == name;
  }

  /** Two tables of slots that differ only in the `n` slots from `r` on, which are
      all free in one and hold a block in the other. */
  ghost predicate AddsBlock(free: seq<Entry>, full: seq<Entry>, r: nat, n: nat, name: seq<word>,
      entry: Entry)
    ensures AddsBlock(free, full, r, n, name, entry) ==> n >= 1 && r + n <= |free| == |full|
  {
    && |free| == |full| && GoodName(name) && IsBlock(full, r, n, name, entry)
    && (forall k :: 0 <= k < |free| && (k < r || r + n <= k) ==> free[k] == full[k])
    && forall k :: r <= k < r + n ==> Free(free[k])
  }

  /** Two tables that differ only in the `n` slots from `r` on, free in one. */
  ghost predicate Differ(free: seq<Entry>, full: seq<Entry>, r: nat, n: nat)
    ensures Differ(free, full, r, n) ==> n >= 1 && r + n <= |free| == |full|
  {
    && |free| == |full| && n >= 1 && r + n <= |free|
    && (forall k :: 0 <= k < |free| && (k < r || r + n <= k) ==> free[k] == full[k])
    && forall k :: r <= k < r + n ==> Free(free[k])
  }

  /** From any state reading stops at the last of these slots. */
  ghost predicate StopsAt(slots: seq<Entry>, r: nat, at: nat)
    requires r <= |slots|
  {
    forall q :: ReadFrom(slots, r, q).Found? && ReadFrom(slots, r, q).at == at
  }

  /** Reading up to slot `r` is the same in both tables: it stops before `r`, or
      it arrives there with the same state, fresh or without a sequence unless
      the slot before belongs to a long name. */
  lemma {:induction false} ReadUpTo(free: seq<Entry>, full: seq<Entry>, k: nat, r: nat, p: Scan) returns (q: Scan)
    requires |free| == |full| && k <= r <= |free|
    requires forall i :: k <= i < r ==> free[i] == full[i] && free[i][0] != 0
    ensures var s, t := ReadFrom(free, k, p), ReadFrom(full, k, p);
            if s.Found? && s.at < r then s == t
            else
              && s == ReadFrom(free, r, q) && t == ReadFrom(full, r, q)
              && (if k == r then q == p else (IsShort(free[r - 1]) || Skipped(free[r - 1]) ==> q.ord == NO_SEQUENCE))
    decreases r - k
  {
    hide IsShort, Skipped;
    if k == r || IsShort(free[k]) {
      q := p;
    } else {
      SkippedStep(p, free[k], k);
      hide Step;
      q := ReadUpTo(free, full, k + 1, r, Step(p, free[k], k));
    }
  }

  lemma SkippedStep(p: Scan, e: Entry, at: nat)
    ensures Skipped(e) ==> Step(p, e, at).ord == NO_SEQUENCE
  {
  }

  /** Free slots give nothing: reading goes on behind them without a sequence,
      or ends, and then there is nothing behind them. */
  lemma {:induction false} ReadFree(slots: seq<Entry>, r: nat, m: nat, p: Scan)
    requires r <= m <= |slots| && Tidy(slots)
    requires forall k :: r <= k < m ==> Free(slots[k])
    requires r < m || p.ord == NO_SEQUENCE
    ensures SameStop(slots, ReadFrom(slots, r, p), ReadFrom(slots, m, Fresh(p.buf)))
    decreases m - r
  {
    hide Agree, Pick;
    if r == m {
      ReadAgrees(slots, r, p, Fresh(p.buf));
    } else if slots[r][0] == 0 {
      if m < |slots| { assert slots[m][0] == 0; }
    } else {
      ReadFree(slots, r + 1, m, Step(p, slots[r], r));
    }
  }

  lemma {:induction false} SameTail(s: seq<Entry>, t: seq<Entry>, k: nat, p: Scan)
    requires |s| == |t| && k <= |s| && forall i :: k <= i < |s| ==> s[i] == t[i]
    ensures ReadFrom(s, k, p) == ReadFrom(t, k, p)
    decreases |s| - k
  {
    hide Step, IsShort;
    if k < |s| && !IsShort(s[k]) { SameTail(s, t, k + 1, Step(p, s[k], k)); }
  }

  lemma {:induction false} SameTailListing(s: seq<Entry>, t: seq<Entry>, k: nat, buf: Buffer)
    requires |s| == |t| && k <= |s| && forall i :: k <= i < |s| ==> s[i] == t[i]
    ensures Listing(s, k, buf) == Listing(t, k, buf)
    decreases |s| - k
  {
    hide ItemOf, IsShort;
    SameTail(s, t, k, Fresh(buf));
    var r := ReadFrom(s, k, Fresh(buf));
    if r.Found? { SameTailListing(s, t, r.at + 1, r.scan.buf); }
  }

  /** What is put into free slots and stops the reader adds one item and leaves every
      other as it was; freeing the slots removes just that item.  What is listed
      before them is `pre`, whatever follows is the same in both. */
  lemma {:induction false} InsertedIsOneItem(free: seq<Entry>, full: seq<Entry>, r: nat, n: nat, k: nat, buf: Buffer)
    returns (pre: seq<Item>, q: Scan)
    requires Differ(free, full, r, n) && StopsAt(full, r, r + n - 1) && Tidy(free) && k <= r
    requires forall i :: 0 <= i < r ==> free[i][0] != 0
    ensures Listing(free, k, buf) == pre + Listing(free, r + n, buf)
    ensures ReadFrom(full, r, q).Found? && ReadFrom(full, r, q).at == r + n - 1
    ensures Listing(full, k, buf) == pre + [ItemOf(r + n - 1, full[r + n - 1], ReadFrom(full, r, q).scan)]
        + Listing(free, r + n, buf)
    ensures forall i :: 0 <= i < |pre| ==> k <= pre[i].at < r
    ensures r == 0 || IsShort(free[r - 1]) || Skipped(free[r - 1]) ==> q.ord == NO_SEQUENCE
    decreases r - k
  {
    hide Tidy, ReadFrom, ItemOf, IsShort, Skipped, SameStop, Listing, StopsAt;
    q := ReadUpTo(free, full, k, r, Fresh(buf));
    var s, t := ReadFrom(free, k, Fresh(buf)), ReadFrom(full, k, Fresh(buf));
    if s.Found? && s.at < r {
      var item := ItemOf(s.at, free[s.at], s.scan);
      var rest;
      rest, q := InsertedIsOneItem(free, full, r, n, s.at + 1, s.scan.buf);
      ListingIgnoresTheBuffer(free, r + n, s.scan.buf, buf);
      ListingStep(free, k, buf, s.at, s.scan);
      ListingStep(full, k, buf, s.at, s.scan);
      pre := [item] + rest;
    } else {
      pre := [];
      InsertedComesNext(free, full, r, n, k, buf, q);
    }
  }

  lemma InsertedComesNext(free: seq<Entry>, full: seq<Entry>, r: nat, n: nat, k: nat, buf: Buffer, q: Scan)
    requires Differ(free, full, r, n) && StopsAt(full, r, r + n - 1) && Tidy(free) && k <= r
    requires ReadFrom(free, k, Fresh(buf)) == ReadFrom(free, r, q)
    requires ReadFrom(full, k, Fresh(buf)) == ReadFrom(full, r, q)
    ensures Listing(free, k, buf) == Listing(free, r + n, buf)
    ensures ReadFrom(full, r, q).Found? && ReadFrom(full, r, q).at == r + n - 1
    ensures Listing(full, k, buf) == [ItemOf(r + n - 1, full[r + n - 1], ReadFrom(full, r, q).scan)]
        + Listing(free, r + n, buf)
  {
    hide Tidy, ReadFrom, ItemOf, IsShort, SameStop;
    var t := ReadFrom(full, k, Fresh(buf));
    ReadFree(free, r, r + n, q);
    ListingFrom(free, k, r + n, buf, q.buf);
    ListingIgnoresTheBuffer(free, r + n, q.buf, buf);
    ListingIgnoresTheBuffer(free, r + n, t.scan.buf, buf);
    SameTailListing(free, full, r + n, t.scan.buf);
  }

  /** The entries of an object with a long name, put into free slots. */
  lemma BlockIsOneItem(free: seq<Entry>, full: seq<Entry>, r: nat, n: nat, name: seq<word>, entry: Entry, buf: Buffer)
    returns (pre: seq<Item>)
    requires AddsBlock(free, full, r, n, name, entry) && Tidy(free)
    requires forall i :: 0 <= i < r ==> free[i][0] != 0
    ensures Listing(free, 0, buf) == pre + Listing(free, r + n, buf)
    ensures Listing(full, 0, buf) == pre + [BlockItem(r, n, name, entry)] + Listing(free, r + n, buf)
  {
    hide Tidy, ItemOf, BlockItem, IsPart, IsShort, Listing, ReadFrom;
    forall q ensures ReadFrom(full, r, q).Found? && ReadFrom(full, r, q).at == r + n - 1
                     && ItemOf(r + n - 1, entry, ReadFrom(full, r, q).scan) == BlockItem(r, n, name, entry)
    {
      ReadBlock(full, r, n, name, entry, n - 1, q);
    }
    var q;
    pre, q := InsertedIsOneItem(free, full, r, n, 0, buf);
  }

  /** A short entry alone, put into a free slot: it has no long name, unless the slot
      before belongs to one whose short entry is missing. */
  lemma ShortIsOneItem(free: seq<Entry>, full: seq<Entry>, r: nat, buf: Buffer)
    returns (pre: seq<Item>, item: Item)
    requires Differ(free, full, r, 1) && IsShort(full[r]) && Tidy(free)
    requires forall i :: 0 <= i < r ==> free[i][0] != 0
    ensures Listing(free, 0, buf) == pre + Listing(free, r + 1, buf)
    ensures Listing(full, 0, buf) == pre + [item] + Listing(free, r + 1, buf)
    ensures item.at == r && item.entry == full[r]
    ensures r == 0 || IsShort(free[r - 1]) || Skipped(free[r - 1]) ==> item == Item(r, r, None, full[r])
  {
    hide Tidy, IsShort, Listing, Skipped;
    StopsAtShort(full, r);
    var q;
    pre, q := InsertedIsOneItem(free, full, r, 1, 0, buf);
    StopsWith(full, r, q);
    item := ItemOf(r, full[r], q);
  }

  lemma StopsAtShort(slots: seq<Entry>, r: nat)
    requires r < |slots| && IsShort(slots[r])
    ensures StopsAt(slots, r, r)
  {
    forall q ensures ReadFrom(slots, r, q).Found? && ReadFrom(slots, r, q).at == r { StopsWith(slots, r, q); }
  }

  lemma StopsWith(slots: seq<Entry>, r: nat, q: Scan)
    requires r < |slots| && IsShort(slots[r])
    ensures ReadFrom(slots, r, q) == Found(r, q)
  {
  }

  lemma ListingStep(slots: seq<Entry>, k: nat, buf: Buffer, at: nat, p: Scan)
    requires k <= |slots| && ReadFrom(slots, k, Fresh(buf)) == Found(at, p)
    ensures at < |slots| && ItemOf(at, slots[at], p).at == at
    ensures Listing(slots, k, buf) == [ItemOf(at, slots[at], p)] + Listing(slots, at + 1, p.buf)
  {
  }

  lemma BlockFits(free: seq<Entry>, full: seq<Entry>, r: nat, n: nat, name: seq<word>, entry: Entry)
    requires AddsBlock(free, full, r, n, name, entry)
    ensures forall k :: 0 <= k < |free| && (k < r || r + n <= k) ==> free[k] == full[k]
  {
  }

  lemma ListingFrom(slots: seq<Entry>, k: nat, m: nat, buf: Buffer, b: Buffer)
    requires k <= |slots| && m <= |slots|
    requires SameStop(slots, ReadFrom(slots, k, Fresh(buf)), ReadFrom(slots, m, Fresh(b)))
    ensures Listing(slots, k, buf) == Listing(slots, m, b)
  {
    hide ReadFrom, ItemOf;
    var r, s := ReadFrom(slots, k, Fresh(buf)), ReadFrom(slots, m, Fresh(b));
    if r.Found? { ListingIgnoresTheBuffer(slots, r.at + 1, r.scan.buf, s.scan.buf); }
  }
}
