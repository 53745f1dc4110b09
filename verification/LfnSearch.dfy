/** Searching a directory for a name (cmp_lfn and dir_find in ff.c): which slot is
    found, and that a created object is found again whatever the case. */
module LfnSearch {
  import opened Options
  import opened Bytes
  import opened LfnEntries
  import opened LfnListing

  /** Upper-casing is given; it maps only 0 to 0. */
  ghost predicate UpperCases(up: word -> word) {
    forall c :: up(c) == 0 <==> c == 0
  }

  ghost predicate SameButForCase(up: word -> word, a: seq<word>, b: seq<word>) {
    |a| == |b| && forall i :: 0 <= i < |a| ==> up(a[i]) == up(b[i])
  }

  /** What is searched for: the name in the working buffer and its short form. */
  datatype Query = Query(buf: Buffer, fn: seq<byte>, loss: bool, noLfn: bool)

  datatype Seek = Seek(ord: nat, sum: nat, blk: Option<nat>)
  datatype Hit = Miss | Hit(at: nat, blk: Option<nat>)

  const START: Seek := Seek(NO_SEQUENCE, 0xFF, None)

  function CmpFrom(up: word -> word, b: Buffer, e: Entry, i: nat, s: nat, wc: word): bool
    requires s <= 13 && (s > 0 ==> i <= MAX_LFN)
    decreases 13 - s
  {
    if s == 13 then !(IsLast(e) && wc != 0 && b[i] != 0)
    else if wc != 0 then
      i < MAX_LFN && up(CharOf(e, s)) == up(b[i]) && CmpFrom(up, b, e, i + 1, s + 1, CharOf(e, s))
    else
      CharOf(e, s) == 0xFFFF && i <= MAX_LFN && CmpFrom(up, b, e, i, s + 1, 0)
  }

  function Cmp(up: word -> word, b: Buffer, e: Entry): bool {
    LdWord(e, 26) == 0 && CmpFrom(up, b, e, PickStart(e), 0, 1)
  }

  /** cmp_lfn: the loop of the source. */
  method CmpLfn(up: word -> word, lfnbuf: Buffer, dir: Entry) returns (same: bool)
    ensures same == Cmp(up, lfnbuf, dir)
  {
    if LdWord(dir, 26) != 0 { return false; }
    hide CharOf, PickStart, LdWord;
    var i: nat, wc: word, s: nat := PickStart(dir), 1, 0;
    while s < 13
      invariant 0 <= s <= 13 && (s > 0 ==> i <= MAX_LFN)
      invariant CmpFrom(up, lfnbuf, dir, i, s, wc) == Cmp(up, lfnbuf, dir)
      invariant s == 0 ==> wc != 0
    {
      var uc := CharOf(dir, s);
      if wc != 0 {
        if i >= MAX_LFN || up(uc) != up(lfnbuf[i]) { return false; }
        i := i + 1;
        wc := uc;
      } else {
        if uc != 0xFFFF { return false; }
      }
      s := s + 1;
    }
    return !(IsLast(dir) && wc != 0 && lfnbuf[i] != 0);
  }

  /** Part `ord` of a name agrees with the buffer: its characters up to case, and
      the end of the name if the part holds it. */
  ghost predicate PartAgrees(up: word -> word, b: Buffer, name: seq<word>, ord: nat, s: nat)
    requires ord >= 1 && |name| <= MAX_LFN
  {
    && (forall j :: 13 * (ord - 1) + s <= j < 13 * ord && j < |name| ==> up(b[j]) == up(name[j]))
    && (13 * ord >= |name| ==> b[|name|] == 0)
  }

  lemma AgreesStep(up: word -> word, b: Buffer, name: seq<word>, ord: nat, s: nat)
    requires UpperCases(up) && ord >= 1 && |name| <= MAX_LFN && s < 13
    ensures var j := 13 * (ord - 1) + s;
            PartAgrees(up, b, name, ord, s) <==>
            PartAgrees(up, b, name, ord, s + 1) && (j <= |name| ==> up(Spread(name, j)) == up(b[j]))
    ensures 13 * (ord - 1) + s >= |name| && PartAgrees(up, b, name, ord, s) ==> b[|name|] == 0
  {
  }

  lemma EndAgrees(up: word -> word, b: Buffer, name: seq<word>, ord: nat)
    requires ord >= 1 && |name| <= MAX_LFN
    ensures PartAgrees(up, b, name, ord, 13) <==> (13 * ord >= |name| ==> b[|name|] == 0)
  {
  }

  /** cmp_lfn is exact on the parts of every name but those of 255 characters,
      whose end it never accepts when a 0 follows it in the last part. */
  lemma {:induction false} ComparedPart(up: word -> word, b: Buffer, e: Entry, name: seq<word>, ord: nat, sum: byte,
      s: nat, i: nat, wc: word)
    requires UpperCases(up) && GoodName(name) && 1 <= ord <= 20 && IsPart(e, name, ord, sum)
    requires 13 * (ord - 1) < |name| && s <= 13
    requires 13 * (ord - 1) + s <= |name| ==> i == 13 * (ord - 1) + s && wc != 0
    requires 13 * (ord - 1) + s > |name| ==> i == |name| + 1 <= MAX_LFN && wc == 0 && b[|name|] == 0
    requires s > 0 ==> i <= MAX_LFN
    ensures CmpFrom(up, b, e, i, s, wc) <==> PartAgrees(up, b, name, ord, s) && !(13 * ord >= |name| == MAX_LFN)
    decreases 13 - s
  {
    hide CharOf;
    if s == 13 {
      EndAgrees(up, b, name, ord);
    } else {
      AgreesStep(up, b, name, ord, s);
      PartCharacter(e, name, ord, sum, s);
      hide IsLast, CharOf, PartAgrees, UpperCases, GoodName, IsPart;
      var c := CharOf(e, s);
      if wc == 0 {
        ComparedPart(up, b, e, name, ord, sum, s + 1, i, 0);
      } else if i < MAX_LFN && up(c) == up(b[i]) {
        if c == 0 { UpOfZero(up, b[i]); }
        ComparedPart(up, b, e, name, ord, sum, s + 1, i + 1, c);
      }
    }
  }

  lemma PartCharacter(e: Entry, name: seq<word>, ord: nat, sum: byte, s: nat)
    requires GoodName(name) && 1 <= ord <= 20 && IsPart(e, name, ord, sum) && s < 13
    ensures CharOf(e, s) == Spread(name, 13 * (ord - 1) + s)
  {
    hide CharOf, Spread, GoodName;
  }

  lemma UpOfZero(up: word -> word, c: word)
    requires UpperCases(up) && up(0) == up(c)
    ensures c == 0
  {
    assert up(0) == 0;
  }

  /** A buffer agrees with every part of a name exactly when it holds that name. */
  lemma AllPartsAgree(up: word -> word, b: Buffer, name: seq<word>)
    requires UpperCases(up) && GoodName(name)
    ensures (forall i :: 0 <= i < |name| ==> up(b[i]) == up(name[i])) && b[|name|] == 0
            <==> SameButForCase(up, NameIn(b), name)
  {
    if (forall i :: 0 <= i < |name| ==> up(b[i]) == up(name[i])) && b[|name|] == 0 {
      forall i | 0 <= i < |name| ensures b[i] != 0 {
        assert up(name[i]) != 0;
      }
      NameInIs(b, |name|);
    }
  }

  /** A slot the search passes over: deleted or a volume label. */
  predicate NoObject(e: Entry) { e[0] == DDEM || (Attr(e) / 8 % 2 == 1 && Attr(e) != AM_LFN) }

  predicate ShortMatches(q: Query, e: Entry) { !q.loss && e[..11] == q.fn }

  function SeekStep(up: word -> word, q: Query, p: Seek, e: Entry, at: nat): Seek {
    if NoObject(e) || Attr(e) != AM_LFN then Seek(NO_SEQUENCE, p.sum, None)
    else if q.noLfn then p
    else
      var r := if IsLast(e) then Seek(Ord(e), e[13], Some(at)) else p;
      r.(ord := if Ord(e) == r.ord && r.sum == e[13] && Cmp(up, q.buf, e) then (r.ord + 0xFF) % 0x100 else NO_SEQUENCE)
  }

  predicate Hits(q: Query, p: Seek, e: Entry) {
    !NoObject(e) && Attr(e) != AM_LFN && ((p.ord == 0 && p.sum == SumOf(e[..11])) || ShortMatches(q, e))
  }

  /** dir_find from slot `k` on. */
  function FindFrom(up: word -> word, q: Query, slots: seq<Entry>, k: nat, p: Seek): (r: Hit)
    requires k <= |slots|
    ensures r.Hit? ==> k <= r.at < |slots|
    decreases |slots| - k
  {
    if k == |slots| || slots[k][0] == 0 then Miss
    else if Hits(q, p, slots[k]) then Hit(k, p.blk)
    else FindFrom(up, q, slots, k + 1, SeekStep(up, q, p, slots[k], k))
  }

  /** In the terms of the directory format: an object that is not deleted and has this 11-byte name. */
  ghost predicate IsNamed(e: Entry, fn: seq<byte>) {
    e[0] != 0xE5 && e[11] / 8 % 2 == 0 && e[..11] == fn
  }

  /** The search stops at the first object with this name reached from slot `k` on, or there is none. */
  ghost predicate FirstNamed(r: Hit, slots: seq<Entry>, k: nat, fn: seq<byte>) {
    match r
    case Miss => forall i: nat :: Reached(slots, k, i) ==> !IsNamed(slots[i], fn)
    case Hit(at, _) =>
      && Reached(slots, k, at) && IsNamed(slots[at], fn)
      && forall i: nat :: k <= i < at ==> !IsNamed(slots[i], fn)
  }

  /** A search for a short name alone stops at the first object that has it, and at nothing else. */
  lemma {:induction false} ShortSearch(up: word -> word, q: Query, slots: seq<Entry>, k: nat, p: Seek)
    requires k <= |slots| && q.noLfn && !q.loss && p.ord == NO_SEQUENCE
    ensures FirstNamed(FindFrom(up, q, slots, k, p), slots, k, q.fn)
    decreases |slots| - k
  {
    hide SumOf, Cmp, Hits, IsNamed, FirstNamed;
    if k < |slots| && slots[k][0] != 0 {
      HitsNamed(q, p, slots[k]);
      if Hits(q, p, slots[k]) {
        NamedHere(FindFrom(up, q, slots, k, p), slots, k, q.fn);
      } else {
        ShortSearch(up, q, slots, k + 1, SeekStep(up, q, p, slots[k], k));
        NamedBehind(FindFrom(up, q, slots, k, p), slots, k, q.fn);
      }
    } else {
      NoneNamed(slots, k, q.fn);
    }
  }

  lemma NamedHere(r: Hit, slots: seq<Entry>, k: nat, fn: seq<byte>)
    requires k < |slots| && slots[k][0] != 0 && IsNamed(slots[k], fn) && r.Hit? && r.at == k
    ensures FirstNamed(r, slots, k, fn)
  {
  }

  lemma NamedBehind(r: Hit, slots: seq<Entry>, k: nat, fn: seq<byte>)
    requires k < |slots| && slots[k][0] != 0 && !IsNamed(slots[k], fn) && FirstNamed(r, slots, k + 1, fn)
    ensures FirstNamed(r, slots, k, fn)
  {
    hide IsNamed;
    forall i: nat | k < i ensures Reached(slots, k, i) <==> Reached(slots, k + 1, i) {
    }
  }

  lemma NoneNamed(slots: seq<Entry>, k: nat, fn: seq<byte>)
    requires k < |slots| ==> slots[k][0] == 0
    ensures FirstNamed(Miss, slots, k, fn)
  {
  }

  lemma HitsNamed(q: Query, p: Seek, e: Entry)
    requires !q.loss && p.ord == NO_SEQUENCE
    ensures Hits(q, p, e) <==> IsNamed(e, q.fn)
  {
    ObjectBit(e);
    hide SumOf, Attr;
  }

  /** Bit 3 of the attribute says label or part of a long name. */
  lemma ObjectBit(e: Entry)
    ensures !(Attr(e) / 8 % 2 == 1 && Attr(e) != AM_LFN) && Attr(e) != AM_LFN <==> e[11] / 8 % 2 == 0
  {
    var a, q := e[11] as int % 0x40, e[11] as int / 0x40;
    assert e[11] as int == 0x40 * q + a;
    assert e[11] as int / 8 == 8 * q + a / 8;
  }

  /** Whatever is searched for, what is found is an object: not deleted, no part of a long name, no label. */
  lemma {:induction false} FoundIsObject(up: word -> word, q: Query, slots: seq<Entry>, k: nat, p: Seek)
    requires k <= |slots|
    ensures var r := FindFrom(up, q, slots, k, p);
        r.Hit? ==> Reached(slots, k, r.at) && slots[r.at][0] != 0xE5 && slots[r.at][11] / 8 % 2 == 0
    decreases |slots| - k
  {
    hide Hits, SeekStep;
    if k < |slots| && slots[k][0] != 0 {
      if Hits(q, p, slots[k]) {
        HitIsObject(q, p, slots[k]);
      } else {
        FoundIsObject(up, q, slots, k + 1, SeekStep(up, q, p, slots[k], k));
      }
    }
  }

  lemma HitIsObject(q: Query, p: Seek, e: Entry)
    requires Hits(q, p, e)
    ensures e[0] != 0xE5 && e[11] / 8 % 2 == 0
  {
    ObjectBit(e);
    hide SumOf, ShortMatches, Attr;
  }

  /** Two searches that go on alike. */
  ghost predicate Alike(p: Seek, r: Seek) {
    p == r || (p.ord == r.ord == NO_SEQUENCE && p.blk == r.blk)
  }

  lemma {:induction false} FindAlike(up: word -> word, q: Query, s: seq<Entry>, t: seq<Entry>, k: nat, p: Seek, r: Seek)
    requires |s| == |t| && k <= |s| && forall i :: k <= i < |s| ==> s[i] == t[i]
    requires Alike(p, r)
    ensures FindFrom(up, q, s, k, p) == FindFrom(up, q, t, k, r)
    decreases |s| - k
  {
    hide Cmp, SumOf, NoObject, ShortMatches, Attr;
    if k < |s| && s[k][0] != 0 && !Hits(q, p, s[k]) {
      FindAlike(up, q, s, t, k + 1, SeekStep(up, q, p, s[k], k), SeekStep(up, q, r, s[k], k));
    }
  }

  lemma {:induction false} FindUpTo(up: word -> word, q: Query, free: seq<Entry>, full: seq<Entry>, k: nat, r: nat,
      p: Seek) returns (m: Seek)
    requires |free| == |full| && k <= r <= |free|
    requires forall i :: k <= i < r ==> free[i] == full[i] && free[i][0] != 0
    ensures var s, t := FindFrom(up, q, free, k, p), FindFrom(up, q, full, k, p);
            if s.Hit? && s.at < r then s == t
            else s == FindFrom(up, q, free, r, m) && t == FindFrom(up, q, full, r, m)
    decreases r - k
  {
    hide SeekStep, Hits;
    if k == r || Hits(q, p, free[k]) {
      m := p;
    } else {
      m := FindUpTo(up, q, free, full, k + 1, r, SeekStep(up, q, p, free[k], k));
    }
  }

  lemma {:induction false} FindPastFree(up: word -> word, q: Query, slots: seq<Entry>, r: nat, m: nat, p: Seek)
    requires r <= m <= |slots| && Tidy(slots)
    requires forall k :: r <= k < m ==> Free(slots[k])
    requires r < m || Alike(p, START)
    ensures FindFrom(up, q, slots, r, p) == FindFrom(up, q, slots, m, START)
    decreases m - r
  {
    hide Cmp;
    if r == m {
      FindAlike(up, q, slots, slots, r, p, START);
    } else if slots[r][0] == 0 {
      if m < |slots| { assert slots[m][0] == 0; }
    } else {
      FindPastFree(up, q, slots, r + 1, m, SeekStep(up, q, p, slots[r], r));
    }
  }

  /** The search in the middle of a block, about to compare part number `k`: all
      parts before agreed, or the sequence is broken. */
  ghost predicate Underway(up: word -> word, q: Query, r: nat, n: nat, name: seq<word>, sum: nat, k: nat, p: Seek)
    requires |name| <= MAX_LFN
  {
    if k + 1 == n then true
    else if |name| < MAX_LFN && AgreesFrom(up, q.buf, name, 13 * k) then p == Seek(k, sum, Some(r))
    else p.ord == NO_SEQUENCE && p.blk == Some(r)
  }

  ghost predicate AgreesFrom(up: word -> word, b: Buffer, name: seq<word>, from: nat)
    requires |name| <= MAX_LFN
  {
    b[|name|] == 0 && forall j :: from <= j < |name| ==> up(b[j]) == up(name[j])
  }

  lemma PartIsCompared(up: word -> word, q: Query, r: nat, n: nat, name: seq<word>, sum: byte, k: nat, p: Seek,
      e: Entry)
    requires UpperCases(up) && !q.noLfn
    requires GoodName(name) && n == (|name| + 12) / 13 + 1 && 1 <= k < n
    requires IsPart(e, name, k, sum) && Underway(up, q, r, n, name, sum, k, p)
    ensures e[0] != 0 && !Hits(q, p, e)
    ensures Underway(up, q, r, n, name, sum, k - 1, SeekStep(up, q, p, e, r + n - 1 - k))
  {
    hide CharOf, Spread, CmpFrom, UpperCases;
    assert IsLast(e) <==> k + 1 == n;
    assert Ord(e) == k && e[0] as int % 0x40 == k;
    ComparedPart(up, q.buf, e, name, k, sum, 0, 13 * (k - 1), 1);
    assert AgreesFrom(up, q.buf, name, 13 * (k - 1))
        <==> PartAgrees(up, q.buf, name, k, 0) && (k + 1 < n ==> AgreesFrom(up, q.buf, name, 13 * k));
  }

  /** The search stops at a block exactly when the names are the same but for case
      (and the stored one shorter than 255), or the short names are the same. */
  ghost predicate Finds(up: word -> word, q: Query, name: seq<word>, entry: Entry) {
    (|name| < MAX_LFN && SameButForCase(up, NameIn(q.buf), name)) || ShortMatches(q, entry)
  }

  lemma {:induction false} FindBlock(up: word -> word, q: Query, slots: seq<Entry>, r: nat, n: nat, name: seq<word>,
      entry: Entry, k: nat, p: Seek)
    requires UpperCases(up) && !q.noLfn
    requires GoodName(name) && IsBlock(slots, r, n, name, entry) && !NoObject(entry) && k < n
    requires Underway(up, q, r, n, name, SumOf(entry[..11]), k, p)
    ensures FindFrom(up, q, slots, r + n - 1 - k, p)
            == if Finds(up, q, name, entry) then Hit(r + n - 1, Some(r)) else FindFrom(up, q, slots, r + n, START)
    decreases k
  {
    hide IsPart, SumOf, UpperCases, Cmp, ShortMatches, SameButForCase, NoObject, Skipped;
    var i := r + n - 1 - k;
    if k == 0 {
      AllPartsAgree(up, q.buf, name);
      if !Hits(q, p, entry) { FindAlike(up, q, slots, slots, r + n, SeekStep(up, q, p, entry, i), START); }
    } else {
      hide Hits, Finds, SeekStep;
      assert IsPart(slots[i], name, k, SumOf(entry[..11]));
      PartIsCompared(up, q, r, n, name, SumOf(entry[..11]), k, p, slots[i]);
      FindBlock(up, q, slots, r, n, name, entry, k - 1, SeekStep(up, q, p, slots[i], i));
    }
  }

  /** Creating an object changes the search for a name in one way only: a search
      that would not stop before the new block stops at it, if it matches. */
  lemma CreatedIsFound(up: word -> word, q: Query, free: seq<Entry>, full: seq<Entry>, r: nat, n: nat,
      name: seq<word>, entry: Entry)
    requires UpperCases(up) && !q.noLfn
    requires AddsBlock(free, full, r, n, name, entry) && !NoObject(entry) && Tidy(free)
    requires forall i :: 0 <= i < r ==> free[i][0] != 0
    ensures var was := FindFrom(up, q, free, 0, START);
            FindFrom(up, q, full, 0, START)
            == if Finds(up, q, name, entry) && !(was.Hit? && was.at < r) then Hit(r + n - 1, Some(r)) else was
  {
    hide FindFrom, Finds, UpperCases, AddsBlock, Free, NoObject, Tidy, IsBlock;
    BlockFits(free, full, r, n, name, entry);
    var m := FindUpTo(up, q, free, full, 0, r, START);
    var s := FindFrom(up, q, free, 0, START);
    if !(s.Hit? && s.at < r) {
      FindAtBlock(up, q, free, full, r, n, name, entry, m);
      FindAlike(up, q, free, full, r + n, START, START);
    }
  }

  lemma FindAtBlock(up: word -> word, q: Query, free: seq<Entry>, full: seq<Entry>, r: nat, n: nat, name: seq<word>,
      entry: Entry, m: Seek)
    requires UpperCases(up) && !q.noLfn
    requires AddsBlock(free, full, r, n, name, entry) && !NoObject(entry) && Tidy(free)
    ensures n >= 1 && r + n <= |free| == |full|
    ensures FindFrom(up, q, free, r, m) == FindFrom(up, q, free, r + n, START)
    ensures FindFrom(up, q, full, r, m)
            == if Finds(up, q, name, entry) then Hit(r + n - 1, Some(r)) else FindFrom(up, q, full, r + n, START)
  {
    hide FindFrom, Finds, UpperCases, NoObject, Tidy, IsShort, IsPart;
    FindPastFree(up, q, free, r, r + n, m);
    FindBlock(up, q, full, r, n, name, entry, n - 1, m);
  }
}
