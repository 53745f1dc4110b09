/** Long-file-name entries (put_lfn, pick_lfn, sum_sfn in ff.c; section "FAT Long
    Directory Entries" of the Microsoft FAT32 File System Specification). */
module LfnEntries {
  import opened Bytes

  type word = x: int | 0 <= x < 0x1_0000
  type Entry = e: seq<byte> | |e| == 32 witness seq(32, i => 0)
  /** The LFN working buffer: _MAX_LFN + 1 characters. */
  type Buffer = b: seq<word> | |b| == 256 witness seq(256, i => 0)

  const MAX_LFN: nat := 255
  const LLEF: nat := 0x40
  const DDEM: nat := 0xE5
  const AM_LFN: nat := 0x0F
  const LFN_OFS: seq<nat> := [1, 3, 5, 7, 9, 14, 16, 18, 20, 22, 24, 28, 30]

  lemma OffsetsAreApart()
    ensures |LFN_OFS| == 13
    ensures forall s :: 0 <= s < 13 ==> 1 <= LFN_OFS[s] && LFN_OFS[s] + 1 < 32
    ensures forall s :: 0 <= s < 13 ==>
          && (LFN_OFS[s] + 1 < 11 || 13 < LFN_OFS[s])
          && (LFN_OFS[s] + 1 < 26 || 27 < LFN_OFS[s])
    ensures forall s, t :: 0 <= s < t < 13 ==> LFN_OFS[s] + 1 < LFN_OFS[t]
  {
  }

  /** The s-th of the 13 characters an entry holds. */
  function CharOf(e: Entry, s: nat): (c: word)
    requires s < 13
  {
    OffsetsAreApart();
    LdWord(e, LFN_OFS[s])
  }

  /** The order number without the mark of the last part. */
  function Ord(e: Entry): (r: nat)
    ensures r < 256
  {
    if IsLast(e) then e[0] - LLEF else e[0]
  }

  predicate IsLast(e: Entry) { e[0] / LLEF % 2 == 1 }

  predicate GoodName(name: seq<word>) {
    1 <= |name| <= MAX_LFN && forall i :: 0 <= i < |name| ==> name[i] != 0 && name[i] != 0xFFFF
  }

  /** A name as the entries spread it: its characters, one 0, then filler. */
  function Spread(name: seq<word>, i: nat): word {
    if i < |name| then name[i] else if i == |name| then 0 else 0xFFFF
  }

  /** What the entry number `ord` of a long name is, byte by byte. */
  ghost predicate IsPart(e: Entry, name: seq<word>, ord: nat, sum: byte)
    requires ord >= 1
  {
    && e[0] == (if 13 * ord >= |name| then ord + LLEF else ord)
    && e[11] == AM_LFN && e[12] == 0 && e[13] == sum && e[26] == 0 && e[27] == 0
    && forall s :: 0 <= s < 13 ==> CharOf(e, s) == Spread(name, 13 * (ord - 1) + s)
  }

  /** The name a working buffer holds: up to its first 0. */
  function NameIn(b: seq<word>): (r: seq<word>)
    ensures |r| <= |b| && r == b[..|r|]
    ensures |r| < |b| ==> b[|r|] == 0
    ensures forall i :: 0 <= i < |r| ==> r[i] != 0
    ensures forall z :: 0 <= z < |b| && b[z] == 0 ==> |r| <= z
  {
    if b == [] || b[0] == 0 then [] else [b[0]] + NameIn(b[1..])
  }

  lemma NameInIs(b: seq<word>, n: nat)
    requires n < |b| && b[n] == 0 && forall i :: 0 <= i < n ==> b[i] != 0
    ensures NameIn(b) == b[..n]
  {
  }

  function PutChar(e: Entry, s: nat, c: word): (r: Entry)
    requires s < 13
    ensures CharOf(r, s) == c
    ensures forall t :: 0 <= t < 13 && t != s ==> CharOf(r, t) == CharOf(e, t)
    ensures forall k :: k in {0, 11, 12, 13, 26, 27} ==> r[k] == e[k]
  {
    OffsetsAreApart();
    StoredWord(e, LFN_OFS[s], c);
    StWord(e, LFN_OFS[s], c)
  }

  lemma OrdIsApart(e: Entry, o: byte)
    ensures forall t :: 0 <= t < 13 ==> CharOf(e[0 := o], t) == CharOf(e, t)
  {
    OffsetsAreApart();
  }

  /** put_lfn: the entry is built in place, character by character. */
  method PutLfn(lfn: Buffer, dir: Entry, ord: nat, sum: byte) returns (e: Entry)
    requires 1 <= ord <= 20
    requires GoodName(NameIn(lfn)) && 13 * (ord - 1) < |NameIn(lfn)|
    ensures IsPart(e, NameIn(lfn), ord, sum)
  {
    hide CharOf;
    ghost var name := NameIn(lfn);
    e := dir[13 := sum][11 := AM_LFN][12 := 0];
    e := StWord(e, 26, 0);
    var i, s, wc: word := (ord - 1) * 13, 0, 0;
    while s < 13
      invariant 0 <= s <= 13
      invariant |e| == 32 && e[13] == sum && e[11] == AM_LFN && e[12] == 0 && e[26] == 0 && e[27] == 0
      invariant 13 * (ord - 1) + s <= |name| ==> i == 13 * (ord - 1) + s && wc != 0xFFFF
      invariant 13 * (ord - 1) + s > |name| ==> i == |name| + 1 && wc == 0xFFFF
      invariant forall t :: 0 <= t < s ==> CharOf(e, t) == Spread(name, 13 * (ord - 1) + t)
    {
      if wc != 0xFFFF { wc := lfn[i]; i := i + 1; }
      e := PutChar(e, s, wc);
      if wc == 0 { wc := 0xFFFF; }
      s := s + 1;
    }
    var last := wc == 0xFFFF || lfn[i] == 0;
    assert last <==> 13 * ord >= |name| by {
      if 13 * ord < |name| { assert lfn[i] == name[i]; }
    }
    var mark := if last then ord + LLEF else ord;
    ghost var unmarked := e;
    OrdIsApart(e, mark);
    e := e[0 := mark];
    forall t | 0 <= t < 13 ensures CharOf(e, t) == Spread(name, 13 * (ord - 1) + t) {
      assert CharOf(e, t) == CharOf(unmarked, t);
    }
  }

  /** What pick_lfn does to the buffer from character `s` on, and whether it succeeds. */
  function PickFrom(b: Buffer, e: Entry, i: nat, s: nat, wc: word): (r: (bool, Buffer))
    requires s <= 13
    decreases 13 - s
  {
    if s == 13 then
      if !IsLast(e) then (true, b)
      else if i >= MAX_LFN then (false, b)
      else (true, b[i := 0])
    else if wc != 0 then
      if i >= MAX_LFN then (false, b)
      else PickFrom(b[i := CharOf(e, s)], e, i + 1, s + 1, CharOf(e, s))
    else if CharOf(e, s) != 0xFFFF then (false, b)
    else PickFrom(b, e, i, s + 1, 0)
  }

  /** The source's index (number - 1) * 13; for number 0 it wraps far above the buffer. */
  function PickStart(e: Entry): nat {
    if e[0] % 0x40 == 0 then 0xFFFF_FFF3 else 13 * (e[0] as int % 0x40 - 1)
  }

  function Pick(b: Buffer, e: Entry): (bool, Buffer) {
    if LdWord(e, 26) != 0 then (false, b) else PickFrom(b, e, PickStart(e), 0, 1)
  }

  /** pick_lfn: the buffer is filled in place, also when the entry turns out bad. */
  method PickLfn(lfnbuf: array<word>, dir: Entry) returns (ok: bool)
    requires lfnbuf.Length == 256
    modifies lfnbuf
    ensures (ok, lfnbuf[..]) == Pick(old(lfnbuf[..]), dir)
  {
    OffsetsAreApart();
    if LdWord(dir, 26) != 0 { return false; }
    var i: nat, wc: word, s: nat := PickStart(dir), 1, 0;
    while s < 13
      invariant 0 <= s <= 13
      invariant PickFrom(lfnbuf[..], dir, i, s, wc) == Pick(old(lfnbuf[..]), dir)
    {
      var uc := CharOf(dir, s);
      if wc != 0 {
        if i >= MAX_LFN { return false; }
        wc := uc;
        lfnbuf[i] := uc;
        i := i + 1;
      } else {
        if uc != 0xFFFF { return false; }
      }
      s := s + 1;
    }
    if IsLast(dir) {
      if i >= MAX_LFN { return false; }
      lfnbuf[i] := 0;
    }
    return true;
  }

  /** The characters of the name from `from` on are in the buffer, and its end. */
  ghost predicate Holds(b: Buffer, name: seq<word>, from: nat) {
    |name| < 256 && b[|name|] == 0 && forall j :: from <= j < |name| ==> b[j] == name[j]
  }

  /** The heart of the round trip: reading back the part with number `ord`
      extends what the buffer holds by that part, unless the name is too long. */
  lemma {:induction false} PickedPart(b: Buffer, e: Entry, name: seq<word>, ord: nat, sum: byte, s: nat, i: nat,
      wc: word)
    requires GoodName(name) && 1 <= ord <= 20 && 13 * (ord - 1) < |name| && IsPart(e, name, ord, sum)
    requires s <= 13
    requires 13 * (ord - 1) + s <= |name| ==> i == 13 * (ord - 1) + s && wc != 0
    requires 13 * (ord - 1) + s > |name| ==> i == |name| + 1 && wc == 0
    requires 13 * (ord - 1) + s > |name| ==> b[|name|] == 0
    requires forall j :: 13 * (ord - 1) <= j < 13 * (ord - 1) + s && j < |name| ==> b[j] == name[j]
    requires 13 * ord >= |name| || Holds(b, name, 13 * ord)
    ensures PickFrom(b, e, i, s, wc).0 <==> !(13 * ord >= |name| >= 254)
    ensures PickFrom(b, e, i, s, wc).0 ==> Holds(PickFrom(b, e, i, s, wc).1, name, 13 * (ord - 1))
    decreases 13 - s
  {
    hide CharOf;
    if s < 13 && (wc == 0 || i < MAX_LFN) {
      var c := CharOf(e, s);
      assert c == Spread(name, 13 * (ord - 1) + s);
      if wc != 0 {
        PickedPart(b[i := c], e, name, ord, sum, s + 1, i + 1, c);
      } else {
        PickedPart(b, e, name, ord, sum, s + 1, i, 0);
      }
    }
  }

  /** Two buffers that agree from `i` up to some 0. */
  ghost predicate Agree(b: Buffer, c: Buffer, i: nat) {
    exists z :: i <= z < 256 && b[z] == 0 && forall j :: i <= j <= z ==> b[j] == c[j]
  }

  lemma AgreeMeansSameName(b: Buffer, c: Buffer)
    requires Agree(b, c, 0)
    ensures NameIn(b) == NameIn(c)
  {
    var n := |NameIn(b)|;
    var z :| 0 <= z < 256 && b[z] == 0 && forall j :: 0 <= j <= z ==> b[j] == c[j];
    NameInIs(c, n);
  }

  /** What an entry does to the buffer depends on the buffer only past its part. */
  lemma {:induction false} PickAgrees(b: Buffer, c: Buffer, e: Entry, i: nat, s: nat, wc: word, from: nat)
    requires s <= 13 && from <= i && (wc != 0 ==> i == from + s)
    requires forall j :: from <= j < i && j < 256 ==> b[j] == c[j]
    requires wc == 0 ==> from < i <= 256 && b[i - 1] == 0
    requires wc != 0 && !IsLast(e) ==> Agree(b, c, from + 13)
    ensures PickFrom(b, e, i, s, wc).0 == PickFrom(c, e, i, s, wc).0
    ensures PickFrom(b, e, i, s, wc).0 ==> Agree(PickFrom(b, e, i, s, wc).1, PickFrom(c, e, i, s, wc).1, from)
    decreases 13 - s
  {
    hide CharOf, Agree;
    if s == 13 {
      PickEndAgrees(b, c, e, i, wc, from);
    } else if wc != 0 {
      if i < MAX_LFN {
        var u := CharOf(e, s);
        if !IsLast(e) { KeepAgree(b, c, from + 13, i, u); }
        PickAgrees(b[i := u], c[i := u], e, i + 1, s + 1, u, from);
      }
    } else if CharOf(e, s) == 0xFFFF {
      PickAgrees(b, c, e, i, s + 1, 0, from);
    }
  }

  lemma PickEndAgrees(b: Buffer, c: Buffer, e: Entry, i: nat, wc: word, from: nat)
    requires from <= i && (wc != 0 ==> i == from + 13)
    requires forall j :: from <= j < i && j < 256 ==> b[j] == c[j]
    requires wc == 0 ==> from < i <= 256 && b[i - 1] == 0
    requires wc != 0 && !IsLast(e) ==> Agree(b, c, from + 13)
    ensures PickFrom(b, e, i, 13, wc).0 == PickFrom(c, e, i, 13, wc).0
    ensures PickFrom(b, e, i, 13, wc).0 ==> Agree(PickFrom(b, e, i, 13, wc).1, PickFrom(c, e, i, 13, wc).1, from)
  {
    if IsLast(e) {
      if i < MAX_LFN { assert b[i := 0][i] == 0; }
    } else if wc == 0 {
      assert b[i - 1] == 0;
    } else {
      var z :| from + 13 <= z < 256 && b[z] == 0 && forall j :: from + 13 <= j <= z ==> b[j] == c[j];
    }
  }

  lemma KeepAgree(b: Buffer, c: Buffer, from: nat, i: nat, u: word)
    requires Agree(b, c, from) && i < from && i < 256
    ensures Agree(b[i := u], c[i := u], from)
  {
    var z :| from <= z < 256 && b[z] == 0 && forall j :: from <= j <= z ==> b[j] == c[j];
    assert b[i := u][z] == 0;
  }

  /** sum_sfn's checksum of the 11 characters of a short name. */
  function SumOf(s: seq<byte>): byte {
    if s == [] then 0
    else
      var sum := SumOf(s[..|s| - 1]);
      (sum / 2 + sum * 128 + s[|s| - 1]) % 256
  }

  /** Bit by bit: the sum so far, rotated right by one place, and the next character, in eight bits. */
  lemma SumRotates(s: seq<byte>, c: byte, b: seq<nat>)
    requires |b| == 8 && forall i :: 0 <= i < 8 ==> b[i] <= 1
    requires SumOf(s) == b[0] + 2 * b[1] + 4 * b[2] + 8 * b[3] + 16 * b[4] + 32 * b[5] + 64 * b[6] + 128 * b[7]
    ensures SumOf(s + [c])
        == (b[1] + 2 * b[2] + 4 * b[3] + 8 * b[4] + 16 * b[5] + 32 * b[6] + 64 * b[7] + 128 * b[0] + c) % 256
  {
    assert (s + [c])[..|s|] == s;
    var rest := b[1] + 2 * b[2] + 4 * b[3] + 8 * b[4] + 16 * b[5] + 32 * b[6] + 64 * b[7];
    Rotated(b[0], rest, c);
  }

  lemma Rotated(low: nat, rest: nat, c: byte)
    requires low <= 1
    ensures var v := low + 2 * rest; (v / 2 + v * 128 + c) % 256 == (rest + 128 * low + c) % 256
  {
    var v := low + 2 * rest;
    assert v / 2 == rest;
    WholeTurns(rest + 128 * low + c, rest);
  }

  lemma WholeTurns(x: nat, n: nat)
    ensures (x + 256 * n) % 256 == x % 256
  {
    assert x == 256 * (x / 256) + x % 256;
    assert (x + 256 * n) / 256 == x / 256 + n;
  }

  method SumSfn(dir: seq<byte>) returns (sum: byte)
    requires |dir| >= 11
    ensures sum == SumOf(dir[..11])
  {
    sum := 0;
    for n := 0 to 11
      invariant sum == SumOf(dir[..n])
    {
      assert dir[..n + 1][..n] == dir[..n];
      sum := (sum / 2 + sum * 128 + dir[n]) % 256;
    }
  }
}
