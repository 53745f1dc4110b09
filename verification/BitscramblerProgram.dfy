/** Whole BitScrambler programs (bsasm.py): where labels point, how the look-up table
    is packed, and the layout of the binary. */
module BitscramblerProgram {
  import opened Arith
  import opened Options
  import opened Bytes
  import opened BitStream
  import opened Bitscrambler

  // ---------------------------------------------------------------- labels

  /** A parsed element: does its instruction go on, is it a label, does it read like a meta-instruction. */
  datatype Element = Element(more: bool, isLabel: bool, metaText: bool, text: string)

  /** Does element `k` belong to a meta-instruction?  Its instruction's first element tells. */
  predicate InMeta(es: seq<Element>, k: nat)
    requires k < |es|
    decreases k
  {
    if k > 0 && es[k - 1].more then InMeta(es, k - 1) else es[k].metaText
  }

  /** An element belongs to a meta-instruction exactly if the first one joined to it does. */
  lemma {:induction false} InMetaIff(es: seq<Element>, k: nat, first: nat)
    requires first <= k < |es| && (first > 0 ==> !es[first - 1].more)
    requires forall i :: first <= i < k ==> es[i].more
    ensures InMeta(es, k) <==> es[first].metaText
    decreases k
  {
    if first < k {
      InMetaIff(es, k - 1, first);
    }
  }

  /** Elements that end an instruction proper. */
  predicate EndsInst(es: seq<Element>, k: nat)
    requires k < |es|
  {
    !es[k].more && !InMeta(es, k) && !es[k].isLabel
  }

  /** Number of instructions among the first `n` elements. */
  function Count(es: seq<Element>, n: nat): nat
    requires n <= |es|
  {
    if n == 0 then 0 else Count(es, n - 1) + (if EndsInst(es, n - 1) then 1 else 0)
  }

  predicate LabelAt(es: seq<Element>, k: nat, name: string)
    requires k < |es|
  {
    es[k].isLabel && !InMeta(es, k) && es[k].text == name
  }

  /** The first pass: marks meta elements and finds the instruction each label stands before. */
  method LabelPass(es: seq<Element>) returns (metas: seq<bool>, ips: map<string, nat>)
    ensures |metas| == |es| && forall k :: 0 <= k < |es| ==> metas[k] == InMeta(es, k)
    ensures forall name :: name in ips <==> exists k: nat :: k < |es| && LabelAt(es, k, name)
    ensures forall name :: name in ips ==> PointsAt(es, |es|, name, ips[name])
  {
    metas, ips := [], map[];
    var ip, instIsMeta, instStart := 0, false, true;
    for n := 0 to |es|
      invariant |metas| == n && forall k :: 0 <= k < n ==> metas[k] == InMeta(es, k)
      invariant instStart == (n == 0 || !es[n - 1].more)
      invariant instIsMeta == (n > 0 && es[n - 1].more && InMeta(es, n - 1))
      invariant ip == Count(es, n)
      invariant forall name :: name in ips <==> exists k: nat :: k < n && LabelAt(es, k, name)
      invariant forall name :: name in ips ==> PointsAt(es, n, name, ips[name])
    {
      var ele := es[n];
      ghost var was := ips;
      if instStart && ele.metaText { instIsMeta := true; }
      assert instIsMeta == InMeta(es, n);
      metas := metas + [instIsMeta];
      if !instIsMeta && ele.isLabel { ips := ips[ele.text := ip]; }
      forall name | name in ips ensures PointsAt(es, n + 1, name, ips[name]) {
        if !LabelAt(es, n, name) { PointsOn(es, n, name, was[name]); } else { PointsNow(es, n, name); }
      }
      if ele.more {
        instStart := false;
      } else {
        instStart := true;
        if !instIsMeta && !ele.isLabel { ip := ip + 1; }
        instIsMeta := false;
      }
    }
  }

  /** `ip` is the number of instructions before the last element that is the label `name`. */
  ghost predicate PointsAt(es: seq<Element>, n: nat, name: string, ip: nat)
    requires n <= |es|
  {
    exists k: nat :: k < n && LabelAt(es, k, name) && ip == Count(es, k) && forall j :: k < j < n ==>
        !LabelAt(es, j, name)
  }

  lemma PointsOn(es: seq<Element>, n: nat, name: string, ip: nat)
    requires n < |es| && PointsAt(es, n, name, ip) && !LabelAt(es, n, name)
    ensures PointsAt(es, n + 1, name, ip)
  {
  }

  lemma PointsNow(es: seq<Element>, n: nat, name: string)
    requires n < |es| && LabelAt(es, n, name)
    ensures PointsAt(es, n + 1, name, Count(es, n))
  {
  }

  /** The instructions completed within the first `n` elements, and the one begun. */
  datatype Bundles = Bundles(done: seq<seq<Element>>, cur: seq<Element>)

  function Collect(es: seq<Element>, n: nat): Bundles
    requires n <= |es|
  {
    if n == 0 then Bundles([], [])
    else
      var b, e := Collect(es, n - 1), es[n - 1];
      if InMeta(es, n - 1) || e.isLabel then b
      else if e.more then Bundles(b.done, b.cur + [e])
      else Bundles(b.done + [b.cur + [e]], [])
  }

  /** The second pass, as far as it gathers elements into instructions. */
  method InstructionPass(es: seq<Element>, metas: seq<bool>) returns (insts: seq<seq<Element>>)
    requires |metas| == |es| && forall k :: 0 <= k < |es| ==> metas[k] == InMeta(es, k)
    ensures insts == Collect(es, |es|).done
  {
    insts := [];
    var inst: seq<Element> := [];
    for n := 0 to |es|
      invariant Collect(es, n) == Bundles(insts, inst)
    {
      if !metas[n] && !es[n].isLabel {
        inst := inst + [es[n]];
        if !es[n].more {
          insts := insts + [inst];
          inst := [];
        }
      }
    }
  }

  /** The number a label gets is the place of the next instruction to be completed:
      the two passes count alike, and instructions keep their places. */
  lemma {:induction false} LabelsAreIndexes(es: seq<Element>, k: nat, n: nat)
    requires k <= n <= |es|
    ensures |Collect(es, k).done| == Count(es, k) <= |Collect(es, n).done| == Count(es, n)
    ensures Collect(es, n).done[..Count(es, k)] == Collect(es, k).done
    decreases n + k
  {
    if k < n {
      LabelsAreIndexes(es, k, n - 1);
    } else if k > 0 {
      LabelsAreIndexes(es, k - 1, k - 1);
    }
  }

  // ---------------------------------------------------------------- the look-up table

  /** A number in `n` bytes, lowest first, what is above cut off. */
  function LeBytes(v: int, n: nat): (r: seq<byte>)
    ensures |r| == n
    decreases n
  {
    if n == 0 then [] else [v % 256] + LeBytes(v / 256, n - 1)
  }

  function FlatLut(lut: seq<int>, bytes: nat): seq<byte>
    decreases |lut|
  {
    if lut == [] then [] else FlatLut(lut[..|lut| - 1], bytes) + LeBytes(lut[|lut| - 1], bytes)
  }

  lemma {:induction false} FlatLength(lut: seq<int>, n: nat)
    ensures |FlatLut(lut, n)| == n * |lut|
    decreases |lut|
  {
    if lut != [] {
      FlatLength(lut[..|lut| - 1], n);
      MulDist(n, |lut| - 1, 1);
    }
  }

  /** The number bytes make, lowest first. */
  function LeNumber(b: seq<byte>): nat {
    if b == [] then 0 else b[0] as nat + 256 * LeNumber(b[1..])
  }

  lemma NextByte(n: nat)
    ensures Power(n + 8) == 256 * Power(n)
  {
    assert Power(n + 4) == 2 * Power(n + 3) == 4 * Power(n + 2) == 8 * Power(n + 1) == 16 * Power(n);
    assert Power(n + 8) == 2 * Power(n + 7) == 4 * Power(n + 6) == 8 * Power(n + 5) == 16 * Power(n + 4);
  }

  lemma {:induction false} NumberOfLeBytes(v: int, n: nat)
    ensures LeNumber(LeBytes(v, n)) == v % Power(8 * n)
    decreases n
  {
    if n > 0 {
      NumberOfLeBytes(v / 256, n - 1);
      assert LeBytes(v, n)[1..] == LeBytes(v / 256, n - 1);
      NextByte(8 * n - 8);
      LowByteApart(v, Power(8 * n - 8));
    }
  }

  lemma LowByteApart(v: int, m: nat)
    requires m > 0
    ensures v % (256 * m) == v % 256 + 256 * ((v / 256) % m)
  {
    var q, r := v / 256 / m, v / 256 % m;
    assert v / 256 == m * q + r;
    assert v == 256 * m * q + (256 * r + v % 256);
    DivUnique(v, 256 * m, q, 256 * r + v % 256);
  }

  lemma EntryBounds(n: nat, k: nat, len: nat)
    requires k < len
    ensures 0 <= n * k && n * k + n == n * (k + 1) <= n * len
  {
    MulDist(n, k, 1);
    MulMono(n, k + 1, len);
  }

  /** The bytes of one entry in the packed table. */
  lemma {:induction false} EntryInFlat(lut: seq<int>, n: nat, k: nat)
    requires k < |lut|
    ensures 0 <= n * k && n * k + n <= |FlatLut(lut, n)| && FlatLut(lut, n)[n * k..n * k + n] == LeBytes(lut[k], n)
    decreases |lut|
  {
    var i := |lut| - 1;
    var a, b := FlatLut(lut[..i], n), LeBytes(lut[i], n);
    assert FlatLut(lut, n) == a + b;
    FlatLength(lut[..i], n);
    EntryBounds(n, k, |lut|);
    if k < i {
      EntryInFlat(lut[..i], n, k);
      EntryBounds(n, k, i);
      hide LeBytes, FlatLut;
      SliceOfFirst(a, b, n * k, n);
    } else {
      hide LeBytes, FlatLut;
      assert n * k == |a|;
      SliceOfSecond(a, b, n);
    }
  }

  lemma SliceOfFirst(a: seq<byte>, b: seq<byte>, o: nat, n: nat)
    requires o + n <= |a|
    ensures (a + b)[o..o + n] == a[o..o + n]
  {
  }

  lemma SliceOfSecond(a: seq<byte>, b: seq<byte>, n: nat)
    requires |b| == n
    ensures (a + b)[|a|..|a| + n] == b
  {
  }

  /** An entry read out of the packed table is the one put in, cut to its width. */
  lemma EntryReadsBack(lut: seq<int>, n: nat, k: nat)
    requires k < |lut|
    ensures 0 <= n * k && n * k + n <= |FlatLut(lut, n)|
    ensures LeNumber(FlatLut(lut, n)[n * k..n * k + n]) == lut[k] % Power(8 * n)
  {
    hide LeBytes, FlatLut, LeNumber, Power;
    EntryInFlat(lut, n, k);
    NumberOfLeBytes(lut[k], n);
  }

  lemma {:induction false} FlatAppend(a: seq<int>, b: seq<int>, n: nat)
    ensures FlatLut(a + b, n) == FlatLut(a, n) + FlatLut(b, n)
    decreases |b|
  {
    hide LeBytes;
    if b == [] {
      assert a + b == a;
    } else {
      var i := |b| - 1;
      assert (a + b)[..|a + b| - 1] == a + b[..i];
      FlatAppend(a, b[..i], n);
    }
  }

  /** The entries missing to whole words. */
  function Missing(n: nat, per: nat): (k: nat)
    requires per == 1 || per == 2 || per == 4
    ensures k < per && (n + k) % per == 0
  {
    (per - n % per) % per
  }

  /** The table padded with zeros to whole words. */
  function Padded(lut: seq<int>, per: nat): (r: seq<int>)
    requires per == 1 || per == 2 || per == 4
    ensures |r| % per == 0 && |lut| <= |r| < |lut| + per && r[..|lut|] == lut
    ensures forall i :: |lut| <= i < |r| ==> r[i] == 0
  {
    hide Missing;
    lut + seq(Missing(|lut|, per), _ => 0)
  }

  lemma LeFour(v: int)
    ensures LeBytes(v, 4) == [v % 256, v / 256 % 256, v / 256 / 256 % 256, v / 256 / 256 / 256 % 256]
    ensures LeBytes(v, 2) == [v % 256, v / 256 % 256] && LeBytes(v, 1) == [v % 256]
  {
    var w := v / 256;
    assert LeBytes(v / 256 / 256 / 256, 1) == [v / 256 / 256 / 256 % 256];
    assert LeBytes(w / 256, 2) == [w / 256 % 256] + LeBytes(w / 256 / 256, 1);
    assert LeBytes(w, 3) == [w % 256] + LeBytes(w / 256, 2);
    assert LeBytes(v, 4) == [v % 256] + LeBytes(w, 3);
    assert LeBytes(w, 1) == [w % 256];
  }

  lemma DigitsOfFour(a: byte, b: byte, c: byte, d: byte)
    ensures var v := a + b * 0x100 + c * 0x1_0000 + d * 0x100_0000;
            v % 256 == a && v / 256 % 256 == b && v / 256 / 256 % 256 == c && v / 256 / 256 / 256 % 256 == d
  {
    var v := a + b * 0x100 + c * 0x1_0000 + d * 0x100_0000;
    assert v / 256 == b + c * 0x100 + d * 0x1_0000;
  }

  lemma Word8(a: int, b: int, c: int, d: int)
    ensures LeBytes(a % 256 + b % 256 * 0x100 + c % 256 * 0x1_0000 + d % 256 * 0x100_0000, 4)
        == FlatLut([a, b, c, d], 1)
  {
    hide LeBytes, FlatLut;
    FlatOfFour(a, b, c, d);
    WordOfFour(a % 256, b % 256, c % 256, d % 256);
  }

  lemma WordOfFour(a: byte, b: byte, c: byte, d: byte)
    ensures LeBytes(a + b * 0x100 + c * 0x1_0000 + d * 0x100_0000, 4) == [a, b, c, d]
  {
    hide LeBytes;
    LeFour(a + b * 0x100 + c * 0x1_0000 + d * 0x100_0000);
    DigitsOfFour(a, b, c, d);
  }

  lemma FlatOfFour(a: int, b: int, c: int, d: int)
    ensures FlatLut([a, b, c, d], 1) == [a % 256, b % 256, c % 256, d % 256]
  {
    FlatOne(a, 1);
    FlatOne(b, 1);
    FlatOne(c, 1);
    FlatOne(d, 1);
    LeFour(a);
    LeFour(b);
    LeFour(c);
    LeFour(d);
    hide FlatLut, LeBytes;
    FlatAppend([a], [b], 1);
    FlatAppend([a, b], [c], 1);
    FlatAppend([a, b, c], [d], 1);
    assert [a, b] == [a] + [b] && [a, b, c] == [a, b] + [c] && [a, b, c, d] == [a, b, c] + [d];
  }

  lemma FlatOne(a: int, n: nat)
    ensures FlatLut([a], n) == LeBytes(a, n)
  {
    assert [a][..0] == [];
  }

  lemma DigitsOfTwo(a: int, b: int)
    ensures var v := a % 0x1_0000 + b % 0x1_0000 * 0x1_0000;
            && v % 256 == a % 256 && v / 256 % 256 == a / 256 % 256
            && v / 256 / 256 % 256 == b % 256 && v / 256 / 256 / 256 % 256 == b / 256 % 256
  {
    var x, y := a % 0x1_0000, b % 0x1_0000;
    LowTwo(a);
    LowTwo(b);
    DigitsOfFour(x % 256, x / 256, y % 256, y / 256);
    assert x + y * 0x1_0000 == x % 256 + x / 256 * 0x100 + y % 256 * 0x1_0000 + y / 256 * 0x100_0000;
  }

  lemma LowTwo(a: int)
    ensures 0 <= a % 0x1_0000 / 256 < 256
    ensures a % 0x1_0000 % 256 == a % 256 && a % 0x1_0000 / 256 == a / 256 % 256
  {
  }

  lemma Word16(a: int, b: int)
    ensures LeBytes(a % 0x1_0000 + b % 0x1_0000 * 0x1_0000, 4) == FlatLut([a, b], 2)
  {
    LeFour(a % 0x1_0000 + b % 0x1_0000 * 0x1_0000);
    DigitsOfTwo(a, b);
    LeFour(a);
    LeFour(b);
    FlatOne(a, 2);
    FlatOne(b, 2);
    hide FlatLut, LeBytes;
    FlatAppend([a], [b], 2);
    assert [a, b] == [a] + [b];
  }

  /** Entries to a word, and bytes to an entry. */
  function PerWord(w: nat): (per: nat)
    requires LutWidth(w)
    ensures (per == 1 || per == 2 || per == 4) && per * w == 32
  {
    if w == 8 then 4 else if w == 16 then 2 else 1
  }

  function EntryBytes(w: nat): (n: nat)
    requires LutWidth(w)
    ensures 8 * n == w && n * PerWord(w) == 4
  {
    if w == 8 then 1 else if w == 16 then 2 else 4
  }

  /** The words of the table: one entry, two or four to a word. */
  method PackLut(lut0: seq<int>, w: nat) returns (words: seq<int>)
    requires LutWidth(w)
    ensures FlatLut(words, 4) == FlatLut(Padded(lut0, PerWord(w)), EntryBytes(w))
    ensures |words| * PerWord(w) == |Padded(lut0, PerWord(w))|
  {
    hide FlatLut, LeBytes, Padded;
    var lut := lut0;
    if w == 8 {
      while |lut| % 4 != 0
        invariant |lut0| <= |lut| && lut <= Padded(lut0, 4)
        decreases |Padded(lut0, 4)| - |lut|
      {
        lut := lut + [0];
      }
      assert lut == Padded(lut0, 4);
      words := PackBytes(lut);
    } else if w == 16 {
      while |lut| % 2 != 0
        invariant |lut0| <= |lut| && lut <= Padded(lut0, 2)
        decreases |Padded(lut0, 2)| - |lut|
      {
        lut := lut + [0];
      }
      assert lut == Padded(lut0, 2);
      words := PackPairs(lut);
    } else {
      words := lut;
      assert Padded(lut0, 1) == lut;
    }
  }

  /** Four bytes to a word. */
  method PackBytes(lut: seq<int>) returns (words: seq<int>)
    requires |lut| % 4 == 0
    ensures FlatLut(words, 4) == FlatLut(lut, 1) && |words| * 4 == |lut|
  {
    hide FlatLut, LeBytes;
    words := [];
    FlatNothing();
    var i := 0;
    while i < |lut|
      invariant 0 <= i <= |lut| && i % 4 == 0 && |words| * 4 == i && FlatLut(words, 4) == FlatLut(lut[..i], 1)
    {
      var v := lut[i] % 256 + lut[i + 1] % 256 * 0x100 + lut[i + 2] % 256 * 0x1_0000 + lut[i + 3] % 256 * 0x100_0000;
      NextBytes(words, lut, i, v);
      words := words + [v];
      i := i + 4;
    }
    assert lut[..i] == lut;
  }

  lemma NextBytes(words: seq<int>, lut: seq<int>, i: nat, v: int)
    requires i + 4 <= |lut| && FlatLut(words, 4) == FlatLut(lut[..i], 1)
    requires v == lut[i] % 256 + lut[i + 1] % 256 * 0x100 + lut[i + 2] % 256 * 0x1_0000 + lut[i + 3] % 256 * 0x100_0000
    ensures FlatLut(words + [v], 4) == FlatLut(lut[..i + 4], 1)
  {
    hide FlatLut, LeBytes;
    FlatAppend(words, [v], 4);
    FlatOne(v, 4);
    Word8(lut[i], lut[i + 1], lut[i + 2], lut[i + 3]);
    FlatAppend(lut[..i], [lut[i], lut[i + 1], lut[i + 2], lut[i + 3]], 1);
    assert lut[..i] + [lut[i], lut[i + 1], lut[i + 2], lut[i + 3]] == lut[..i + 4];
  }

  /** Two entries to a word. */
  method PackPairs(lut: seq<int>) returns (words: seq<int>)
    requires |lut| % 2 == 0
    ensures FlatLut(words, 4) == FlatLut(lut, 2) && |words| * 2 == |lut|
  {
    hide FlatLut, LeBytes;
    words := [];
    FlatNothing();
    var i := 0;
    while i < |lut|
      invariant 0 <= i <= |lut| && i % 2 == 0 && |words| * 2 == i && FlatLut(words, 4) == FlatLut(lut[..i], 2)
    {
      var v := lut[i] % 0x1_0000 + lut[i + 1] % 0x1_0000 * 0x1_0000;
      NextPair(words, lut, i, v);
      words := words + [v];
      i := i + 2;
    }
    assert lut[..i] == lut;
  }

  lemma NextPair(words: seq<int>, lut: seq<int>, i: nat, v: int)
    requires i + 2 <= |lut| && FlatLut(words, 4) == FlatLut(lut[..i], 2)
    requires v == lut[i] % 0x1_0000 + lut[i + 1] % 0x1_0000 * 0x1_0000
    ensures FlatLut(words + [v], 4) == FlatLut(lut[..i + 2], 2)
  {
    hide FlatLut, LeBytes;
    FlatAppend(words, [v], 4);
    FlatOne(v, 4);
    Word16(lut[i], lut[i + 1]);
    FlatAppend(lut[..i], [lut[i], lut[i + 1]], 2);
    assert lut[..i] + [lut[i], lut[i + 1]] == lut[..i + 2];
  }

  lemma FlatNothing()
    ensures FlatLut([], 1) == FlatLut([], 2) == FlatLut([], 4) == []
  {
  }

  // ---------------------------------------------------------------- the binary

  datatype Meta = Meta(prefetch: bool, trailingBytes: nat, eofOn: bool, lutWidth: nat) {
    predicate Valid() { trailingBytes <= 8192 && LutWidth(lutWidth) }
  }

  datatype Binary = Ok(bytes: seq<byte>) | TooManyInstructions | HeaderOverflow | InputsClash

  const BINARY_VER: byte := 1
  const HW_REV: byte := 0

  function WidthCode(w: nat): byte { if w == 8 then 0 else if w == 16 then 1 else 2 }
  function BoolByte(b: bool): byte { if b then 1 else 0 }

  function Header(insts: nat, words: nat, meta: Meta): (r: seq<byte>)
    requires insts <= 8
    ensures |r| == 12
  {
    [BINARY_VER, HW_REV, 3, insts] + LeBytes(words, 2) + [WidthCode(meta.lutWidth), BoolByte(meta.prefetch)]
    + LeBytes(meta.trailingBytes * 8, 2) + [BoolByte(meta.eofOn), 0]
  }

  ghost predicate AllEncodable(insts: seq<Inst>)
    requires forall k :: 0 <= k < |insts| ==> insts[k].Valid()
  {
    forall k :: 0 <= k < |insts| ==> AllCompatible(Lines(insts[k]))
  }

  /** The sections of a binary: header, instructions of 36 bytes, and the table. */
  ghost predicate IsBinary(b: seq<byte>, insts: seq<Inst>, meta: Meta, lut: seq<int>)
    requires meta.Valid() && |insts| <= 8 && forall k :: 0 <= k < |insts| ==> insts[k].Valid()
  {
    var table := FlatLut(Padded(lut, PerWord(meta.lutWidth)), EntryBytes(meta.lutWidth));
    && |b| == 12 + 36 * |insts| + |table|
    && b[..12] == Header(|insts|, |table| / 4, meta)
    && (forall k :: 0 <= k < |insts| ==> ByteBits(b[12 + 36 * k..48 + 36 * k]) == InstBits(insts[k]))
    && b[12 + 36 * |insts|..] == table
  }

  function WidthOf(code: byte): (w: nat)
    ensures LutWidth(w)
  {
    if code == 0 then 8 else if code == 1 then 16 else 32
  }

  /** What a loader finds in the header of a binary, and where it finds the rest. */
  datatype Head = Head(insts: nat, words: nat, entry: nat, prefetch: bool, trailing: nat, eofOn: bool) {
    function Table(): nat { 12 + 36 * insts }
    function Size(): nat { Table() + 4 * words }
  }

  function HeadOf(b: seq<byte>): Head
    requires |b| >= 12
  {
    Head(b[3], LeNumber(b[4..6]), EntryBytes(WidthOf(b[6])), b[7] == 1, LeNumber(b[8..10]), b[10] == 1)
  }

  /** Entry `k` of a table. */
  function EntryOf(table: seq<byte>, n: nat, k: nat): nat
    requires 0 <= n * k && n * k + n <= |table|
  {
    LeNumber(table[n * k..n * k + n])
  }

  /** A loader reads out of the bytes what the program says: the sizes and settings,
      the instructions, the entries cut to their width and zeros behind them. */
  ghost predicate ReadsBack(b: seq<byte>, insts: seq<Inst>, meta: Meta, lut: seq<int>)
    requires meta.Valid() && forall k :: 0 <= k < |insts| ==> insts[k].Valid()
  {
    && |b| >= 12 && b[..3] == [1, 0, 3] && b[6] <= 2 && b[11] == 0
    && var h := HeadOf(b);
    && |b| == h.Size() && h.insts == |insts|
    && 8 * h.entry == meta.lutWidth && h.prefetch == meta.prefetch && h.trailing == 8 * meta.trailingBytes
        && h.eofOn == meta.eofOn
    && (forall k :: 0 <= k < |insts| ==> Says(ByteBits(b[12 + 36 * k..48 + 36 * k]), insts[k]))
    && EntriesReadBack(b[h.Table()..], h.entry, lut)
  }

  ghost predicate EntriesReadBack(table: seq<byte>, n: nat, lut: seq<int>) {
    exists count: nat :: n * count == |table| && |lut| <= count && forall k: nat :: k < count ==>
      && 0 <= n * k && n * k + n <= |table|
      && EntryOf(table, n, k) == if k < |lut| then lut[k] % Power(8 * n) else 0
  }

  lemma TableReadsBack(lut: seq<int>, per: nat, n: nat)
    requires per == 1 || per == 2 || per == 4
    ensures EntriesReadBack(FlatLut(Padded(lut, per), n), n, lut)
  {
    hide FlatLut, Padded, LeNumber, Power;
    var all := Padded(lut, per);
    FlatLength(all, n);
    forall k: nat | k < |all|
      ensures 0 <= n * k && n * k + n <= |FlatLut(all, n)|
      ensures EntryOf(FlatLut(all, n), n, k) == if k < |lut| then lut[k] % Power(8 * n) else 0
    {
      EntryReadsBack(all, n, k);
      assert k < |lut| ==> all[k] == all[..|lut|][k];
    }
  }

  lemma BinaryReadsBack(b: seq<byte>, insts: seq<Inst>, meta: Meta, lut: seq<int>)
    requires meta.Valid() && |insts| <= 8 && (forall k :: 0 <= k < |insts| ==> insts[k].Valid())
    requires IsBinary(b, insts, meta, lut)
    requires meta.trailingBytes < 8192 && |Padded(lut, PerWord(meta.lutWidth))| <= 0xFFFF * PerWord(meta.lutWidth)
    ensures ReadsBack(b, insts, meta, lut)
  {
    hide FlatLut, Padded, EntriesReadBack, Says, ByteBits, InstBits, Header, HeadOf;
    var per, n := PerWord(meta.lutWidth), EntryBytes(meta.lutWidth);
    var all := Padded(lut, per);
    var table := FlatLut(all, n);
    FlatLength(all, n);
    WholeWords(|all|, per, n);
    HeadReadsBack(|insts|, |table| / 4, meta);
    HeaderBytes(|insts|, |table| / 4, meta);
    HeadIsFirst(b);
    TableReadsBack(lut, per, n);
    forall k | 0 <= k < |insts| ensures Says(ByteBits(b[12 + 36 * k..48 + 36 * k]),
        insts[k]) { InstReadsBack(insts[k]); }
  }

  lemma WholeWords(count: nat, per: nat, n: nat)
    requires per == 1 || per == 2 || per == 4
    requires n * per == 4 && count % per == 0 && count <= 0xFFFF * per
    ensures n * count % 4 == 0 && n * count / 4 < 0x1_0000
  {
    assert n == if per == 1 then 4 else if per == 2 then 2 else 1;
  }

  lemma HeadIsFirst(b: seq<byte>)
    requires |b| >= 12
    ensures HeadOf(b) == HeadOf(b[..12]) && b[..3] == b[..12][..3] && b[6] == b[..12][6] && b[11] == b[..12][11]
  {
    assert b[..12][4..6] == b[4..6] && b[..12][8..10] == b[8..10];
  }

  lemma HeadReadsBack(insts: nat, words: nat, meta: Meta)
    requires meta.Valid() && insts <= 8 && words < 0x1_0000 && meta.trailingBytes < 8192
    ensures HeadOf(Header(insts, words, meta)) == Head(insts, words, EntryBytes(meta.lutWidth), meta.prefetch,
        8 * meta.trailingBytes, meta.eofOn)
  {
    var b := Header(insts, words, meta);
    HeaderBytes(insts, words, meta);
    TwoBytes(words);
    TwoBytes(meta.trailingBytes * 8);
    hide LeBytes, LeNumber, Header;
  }

  lemma HeaderBytes(insts: nat, words: nat, meta: Meta)
    requires meta.Valid() && insts <= 8
    ensures var b := Header(insts, words, meta);
            && b[..3] == [1, 0, 3] && b[6] <= 2 && b[11] == 0
            && b[3] == insts && b[4..6] == LeBytes(words, 2) && b[6] == WidthCode(meta.lutWidth)
            && b[7] == BoolByte(meta.prefetch) && b[8..10] == LeBytes(meta.trailingBytes * 8, 2)
                && b[10] == BoolByte(meta.eofOn)
  {
    hide LeBytes, BoolByte;
  }

  lemma TwoBytes(v: nat)
    requires v < 0x1_0000
    ensures LeNumber(LeBytes(v, 2)) == v
  {
    NumberOfLeBytes(v, 2);
    NextByte(0);
    NextByte(8);
  }

  method EncodeInsts(insts: seq<Inst>) returns (ok: bool, code: seq<byte>)
    requires forall k :: 0 <= k < |insts| ==> insts[k].Valid()
    ensures ok <==> AllEncodable(insts)
    ensures ok ==> |code| == 36 * |insts| && forall k :: 0 <= k < |insts| ==>
        ByteBits(code[36 * k..36 * k + 36]) == InstBits(insts[k])
  {
    hide AllCompatible, InstBits, ByteBits;
    code := [];
    for n := 0 to |insts|
      invariant |code| == 36 * n
      invariant forall k :: 0 <= k < n ==> AllCompatible(Lines(insts[k]))
      invariant forall k :: 0 <= k < n ==> ByteBits(code[36 * k..36 * k + 36]) == InstBits(insts[k])
    {
      var r := EncodeInst(insts[n]);
      if r.None? { return false, code; }
      ghost var was := code;
      code := code + r.value;
      forall k | 0 <= k < n + 1 ensures ByteBits(code[36 * k..36 * k + 36]) == InstBits(insts[k]) {
        if k < n {
          assert code[36 * k..36 * k + 36] == was[36 * k..36 * k + 36];
        } else {
          assert code[36 * n..36 * n + 36] == r.value;
        }
      }
    }
    ok := true;
  }

  method EncodeWords(words: seq<int>) returns (b: seq<byte>)
    ensures b == FlatLut(words, 4)
  {
    hide LeBytes;
    b := [];
    for n := 0 to |words|
      invariant b == FlatLut(words[..n], 4)
    {
      assert words[..n + 1][..n] == words[..n];
      b := b + LeBytes(words[n], 4);
    }
    assert words[..|words|] == words;
  }

  /** insts_to_binary.  A header field that does not fit its two bytes is refused:
      8192 trailing bytes, which the parser allows, are one too many. */
  method InstsToBinary(insts: seq<Inst>, meta: Meta, lut: seq<int>) returns (r: Binary)
    requires meta.Valid() && forall k :: 0 <= k < |insts| ==> insts[k].Valid()
    ensures r.TooManyInstructions? <==> |insts| > 8
    ensures |insts| <= 8 ==>
              (r.HeaderOverflow? <==>
                 || meta.trailingBytes == 8192
                 || |Padded(lut, PerWord(meta.lutWidth))| > 0xFFFF * PerWord(meta.lutWidth))
    ensures r.InputsClash? ==> !AllEncodable(insts)
    ensures r.Ok? ==>
          && |insts| <= 8 && AllEncodable(insts) && IsBinary(r.bytes, insts, meta, lut)
          && ReadsBack(r.bytes, insts, meta, lut)
  {
    hide AllEncodable, FlatLut, InstBits, ByteBits, Header, Padded;
    if |insts| > 8 { return TooManyInstructions; }
    var words := PackLut(lut, meta.lutWidth);
    Overflows(|words|, PerWord(meta.lutWidth));
    if |words| > 0xFFFF || meta.trailingBytes * 8 > 0xFFFF { return HeaderOverflow; }
    var ok, code := EncodeInsts(insts);
    if !ok { return InputsClash; }
    var table := EncodeWords(words);
    r := Ok(Header(|insts|, |words|, meta) + code + table);
    FlatLength(words, 4);
    Assembled(Header(|insts|, |words|, meta), code, table, insts);
    BinaryReadsBack(r.bytes, insts, meta, lut);
  }

  lemma Overflows(n: nat, per: nat)
    requires per == 1 || per == 2 || per == 4
    ensures n > 0xFFFF <==> n * per > 0xFFFF * per
  {
  }

  lemma Assembled(header: seq<byte>, code: seq<byte>, table: seq<byte>, insts: seq<Inst>)
    requires |header| == 12 && |code| == 36 * |insts| && forall k :: 0 <= k < |insts| ==> insts[k].Valid()
    requires forall k :: 0 <= k < |insts| ==> ByteBits(code[36 * k..36 * k + 36]) == InstBits(insts[k])
    ensures var b := header + code + table;
            && |b| == 12 + 36 * |insts| + |table| && b[..12] == header && b[12 + 36 * |insts|..] == table
            && forall k :: 0 <= k < |insts| ==> ByteBits(b[12 + 36 * k..48 + 36 * k]) == InstBits(insts[k])
  {
    var b := header + code + table;
    forall k | 0 <= k < |insts| ensures ByteBits(b[12 + 36 * k..48 + 36 * k]) == InstBits(insts[k]) {
      assert b[12 + 36 * k..48 + 36 * k] == code[36 * k..36 * k + 36];
    }
  }
}
