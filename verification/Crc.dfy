/** The checksums of the SD card protocol (sd_diskio_crc.c): the table-driven loops of
    the driver compute remainders of polynomials (SD Physical Layer Simplified
    Specification, section 4.5).  Bytes are taken as unsigned. */
module Crc {
  import opened Arith
  import opened PolyDivision
  import opened CrcTables

  // ---------------------------------------------------------------- words and their bits

  function Mask(k: nat): bv16
    requires k < 16
  {
    (1 as bv16) << k
  }

  /** Is the bit of value 2^k set? */
  predicate BitAt(x: bv16, k: int) { 0 <= k < 16 && x & Mask(k) != 0 }

  /** The lowest `w` bits of a word, highest first. */
  function PolyOf(x: bv16, w: nat): (r: Poly)
    ensures |r| == w
  {
    seq(w, k => BitAt(x, w - 1 - k))
  }

  /** x^7 + x^3 + 1 and x^16 + x^12 + x^5 + 1, without their leading terms. */
  const POLY7: bv16 := 0x09
  const POLY16: bv16 := 0x1021

  function G7(): (g: Poly)
    ensures |g| == 7 && Divisor(g)
  {
    Masks();
    assert PolyOf(POLY7, 7)[6] == BitAt(POLY7, 0);
    PolyOf(POLY7, 7)
  }

  function G16(): (g: Poly)
    ensures |g| == 16 && Divisor(g)
  {
    Masks();
    assert PolyOf(POLY16, 16)[15] == BitAt(POLY16, 0);
    PolyOf(POLY16, 16)
  }

  lemma BitOfXor(x: bv16, y: bv16, k: int)
    ensures BitAt(x ^ y, k) <==> BitAt(x, k) != BitAt(y, k)
  {
    if 0 <= k < 16 {
      assert Mask(k) & (Mask(k) - 1) == 0;
      MaskedXor(x, y, Mask(k));
    }
  }

  lemma MaskedXor(x: bv16, y: bv16, m: bv16)
    requires m & (m - 1) == 0
    ensures (x ^ y) & m != 0 <==> (x & m != 0) != (y & m != 0)
  {
  }

  lemma BitOfShift(x: bv16, k: nat)
    requires k < 16
    ensures (x << 1) & Mask(k) != 0 <==> k > 0 && x & Mask(k - 1) != 0
  {
  }

  lemma BitOfByteShift(x: bv16, k: nat)
    requires k < 16
    ensures (x << 8) & Mask(k) != 0 <==> k >= 8 && x & Mask(k - 8) != 0
    ensures (x >> 8) & Mask(k) != 0 <==> k < 8 && x & Mask(k + 8) != 0
  {
  }

  lemma XorOfWords(x: bv16, y: bv16, w: nat)
    ensures PolyOf(x ^ y, w) == Xor(PolyOf(x, w), PolyOf(y, w))
  {
    hide BitAt;
    forall k | 0 <= k < w ensures PolyOf(x ^ y, w)[k] == Xor(PolyOf(x, w), PolyOf(y, w))[k] {
      BitOfXor(x, y, w - 1 - k);
    }
  }

  function WordSum(x: bv16, y: bv16): bv16 { x ^ y }

  lemma BitsOfWordSum(x: bv16, y: bv16, w: nat)
    ensures PolyOf(WordSum(x, y), w) == Xor(PolyOf(x, w), PolyOf(y, w))
    ensures Narrow(x) && Narrow(y) ==> Narrow(WordSum(x, y))
  {
    XorOfWords(x, y, w);
    NarrowXor(x, y);
  }

  /** A remainder of seven bits. */
  predicate Narrow(x: bv16) { x & 0x7F == x }

  lemma NarrowXor(x: bv16, y: bv16)
    ensures Narrow(x) && Narrow(y) ==> Narrow(x ^ y)
  {
  }

  /** Shifting a word: what moves out is lost, zeros come in. */
  lemma ShiftOfWords(x: bv16, w: nat)
    requires 1 <= w <= 16
    ensures PolyOf(x << 1, w) == PolyOf(x, w)[1..] + [false]
    ensures PolyOf(x << 8, 16) == PolyOf(x, 16)[8..] + Zeros(8)
    ensures PolyOf(x >> 8, 8) == PolyOf(x, 16)[..8]
  {
    hide BitAt;
    forall k | 0 <= k < w ensures PolyOf(x << 1, w)[k] == (PolyOf(x, w)[1..] + [false])[k] {
      BitAtShift(x, w - 1 - k);
    }
    forall k | 0 <= k < 16 ensures PolyOf(x << 8, 16)[k] == (PolyOf(x, 16)[8..] + Zeros(8))[k] {
      BitAtShift(x, 15 - k);
    }
    forall k | 0 <= k < 8 ensures PolyOf(x >> 8, 8)[k] == PolyOf(x, 16)[..8][k] {
      BitAtShift(x, 7 - k);
    }
  }

  lemma BitAtShift(x: bv16, k: int)
    ensures BitAt(x << 1, k) <==> 0 < k < 16 && BitAt(x, k - 1)
    ensures BitAt(x << 8, k) <==> 8 <= k < 16 && BitAt(x, k - 8)
    ensures BitAt(x >> 8, k) <==> 0 <= k < 8 && BitAt(x, k + 8)
  {
    if 0 <= k < 16 {
      BitOfShift(x, k);
      BitOfByteShift(x, k);
    }
    hide Mask;
  }

  // ---------------------------------------------------------------- table indexes

  /** The number whose bits are `p`. */
  function Index(p: Poly): nat
    decreases |p|
  {
    if p == [] then 0 else 2 * Index(p[..|p| - 1]) + (if p[|p| - 1] then 1 else 0)
  }

  function Value(b: bool): nat { if b then 1 else 0 }

  lemma SumOfBits(x: bv16)
    requires x & 0xFF == x
    ensures x as int < 256
    ensures x as int
            == (if x & 128 != 0 then 128 else 0) + (if x & 64 != 0 then 64 else 0) + (if x & 32 != 0 then 32 else 0)
               + (if x & 16 != 0 then 16 else 0) + (if x & 8 != 0 then 8 else 0) + (if x & 4 != 0 then 4 else 0)
               + (if x & 2 != 0 then 2 else 0) + (if x & 1 != 0 then 1 else 0)
  {
  }

  lemma IndexStep(p: Poly, n: nat)
    requires n < |p|
    ensures Index(p[..n + 1]) == 2 * Index(p[..n]) + Value(p[n])
  {
    assert p[..n + 1][..n] == p[..n];
  }

  lemma IndexOfEight(p: Poly)
    requires |p| == 8
    ensures Index(p) == 128 * Value(p[0]) + 64 * Value(p[1]) + 32 * Value(p[2]) + 16 * Value(p[3])
                        + 8 * Value(p[4]) + 4 * Value(p[5]) + 2 * Value(p[6]) + Value(p[7])
  {
    hide Index, Value;
    assert p[..8] == p && p[..0] == [];
    NoIndex();
    IndexStep(p, 0);
    IndexStep(p, 1);
    IndexStep(p, 2);
    IndexStep(p, 3);
    IndexStep(p, 4);
    IndexStep(p, 5);
    IndexStep(p, 6);
    IndexStep(p, 7);
  }

  lemma NoIndex()
    ensures Index([]) == 0
  {
  }

  lemma Masks()
    ensures Mask(0) == 1 && Mask(1) == 2 && Mask(2) == 4 && Mask(3) == 8
    ensures Mask(4) == 16 && Mask(5) == 32 && Mask(6) == 64 && Mask(7) == 128
  {
  }

  lemma BitsOfByte(x: bv16)
    ensures var p := PolyOf(x, 8);
            && p[0] == (x & 128 != 0) && p[1] == (x & 64 != 0) && p[2] == (x & 32 != 0) && p[3] == (x & 16 != 0)
            && p[4] == (x & 8 != 0) && p[5] == (x & 4 != 0) && p[6] == (x & 2 != 0) && p[7] == (x & 1 != 0)
  {
    hide BitAt, Mask;
    Masks();
    LowBit(x, 0, 1);
    LowBit(x, 1, 2);
    LowBit(x, 2, 4);
    LowBit(x, 3, 8);
    LowBit(x, 4, 16);
    LowBit(x, 5, 32);
    LowBit(x, 6, 64);
    LowBit(x, 7, 128);
  }

  lemma LowBit(x: bv16, k: nat, m: bv16)
    requires k < 16 && Mask(k) == m
    ensures BitAt(x, k) <==> x & m != 0
  {
    hide Mask;
  }

  /** A byte used as an index is the number its bits make. */
  lemma IndexOfByte(x: bv16)
    requires x & 0xFF == x
    ensures Index(PolyOf(x, 8)) == x as int < 256
  {
    SumOfBits(x);
    hide Index;
    IndexOfEight(PolyOf(x, 8));
    BitsOfByte(x);
    hide PolyOf;
  }

  // ---------------------------------------------------------------- the tables

  /** Entry `i` of a table. */
  function Entry(table: seq<seq<bv16>>, i: nat): bv16
    requires IsTable(table) && i < 256
  {
    table[i / 8][i % 8]
  }

  predicate IsTable(table: seq<seq<bv16>>) {
    |table| == 32 && forall r :: 0 <= r < 32 ==> |table[r]| == 8
  }

  /** A remainder times x. */
  function Double7(t: bv16): bv16 { if t & 0x40 != 0 then WordSum((t << 1) & 0x7F, POLY7) else (t << 1) & 0x7F }
  function Double16(t: bv16): bv16 { if t & 0x8000 != 0 then WordSum(t << 1, POLY16) else t << 1 }

  predicate Pair7(t: bv16, y: bv16, z: bv16) { y == Double7(t) && z == WordSum(y, POLY7) }
  predicate Pair16(t: bv16, y: bv16, z: bv16) { y == Double16(t) && z == WordSum(y, POLY16) }

  /** Rows `b` and `c` are what row `a` gives: each entry times x, without and with the divisor added. */
  predicate Follows7(a: seq<bv16>, b: seq<bv16>, c: seq<bv16>) {
    && |a| == |b| == |c| == 8
    && Pair7(a[0], b[0], b[1]) && Pair7(a[1], b[2], b[3]) && Pair7(a[2], b[4], b[5]) && Pair7(a[3], b[6], b[7])
    && Pair7(a[4], c[0], c[1]) && Pair7(a[5], c[2], c[3]) && Pair7(a[6], c[4], c[5]) && Pair7(a[7], c[6], c[7])
  }

  predicate Follows16(a: seq<bv16>, b: seq<bv16>, c: seq<bv16>) {
    && |a| == |b| == |c| == 8
    && Pair16(a[0], b[0], b[1]) && Pair16(a[1], b[2], b[3]) && Pair16(a[2], b[4], b[5]) && Pair16(a[3], b[6], b[7])
    && Pair16(a[4], c[0], c[1]) && Pair16(a[5], c[2], c[3]) && Pair16(a[6], c[4], c[5]) && Pair16(a[7], c[6], c[7])
  }

  lemma Rows7From0()
    ensures forall r :: 0 <= r < 4 ==> Follows7(TABLE7[r], TABLE7[2 * r], TABLE7[2 * r + 1])
  {
    Rows7From1();
    Rows7From2();
    hide Follows7, TABLE7;
  }

  lemma Rows7From1()
    ensures forall r :: 0 <= r < 2 ==> Follows7(TABLE7[r], TABLE7[2 * r], TABLE7[2 * r + 1])
  {
  }

  lemma Rows7From2()
    ensures forall r :: 2 <= r < 4 ==> Follows7(TABLE7[r], TABLE7[2 * r], TABLE7[2 * r + 1])
  {
  }

  lemma Rows7From4()
    ensures forall r :: 4 <= r < 8 ==> Follows7(TABLE7[r], TABLE7[2 * r], TABLE7[2 * r + 1])
  {
  }

  lemma Rows7From8()
    ensures forall r :: 8 <= r < 12 ==> Follows7(TABLE7[r], TABLE7[2 * r], TABLE7[2 * r + 1])
  {
  }

  lemma Rows7From12()
    ensures forall r :: 12 <= r < 16 ==> Follows7(TABLE7[r], TABLE7[2 * r], TABLE7[2 * r + 1])
  {
  }

  lemma Rows16From0()
    ensures forall r :: 0 <= r < 4 ==> Follows16(TABLE16[r], TABLE16[2 * r], TABLE16[2 * r + 1])
  {
    Rows16From1();
    Rows16From2();
    hide Follows16, TABLE16;
  }

  lemma Rows16From1()
    ensures forall r :: 0 <= r < 2 ==> Follows16(TABLE16[r], TABLE16[2 * r], TABLE16[2 * r + 1])
  {
  }

  lemma Rows16From2()
    ensures forall r :: 2 <= r < 4 ==> Follows16(TABLE16[r], TABLE16[2 * r], TABLE16[2 * r + 1])
  {
  }

  lemma Rows16From4()
    ensures forall r :: 4 <= r < 8 ==> Follows16(TABLE16[r], TABLE16[2 * r], TABLE16[2 * r + 1])
  {
  }

  lemma Rows16From8()
    ensures forall r :: 8 <= r < 12 ==> Follows16(TABLE16[r], TABLE16[2 * r], TABLE16[2 * r + 1])
  {
  }

  lemma Rows16From12()
    ensures forall r :: 12 <= r < 16 ==> Follows16(TABLE16[r], TABLE16[2 * r], TABLE16[2 * r + 1])
  {
  }

  lemma TablesStart()
    ensures IsTable(TABLE7) && IsTable(TABLE16) && TABLE7[0][0] == 0 && TABLE16[0][0] == 0
  {
  }

  lemma Places(i: nat)
    requires i < 128
    ensures (2 * i) / 8 == 2 * (i / 8) + i % 8 / 4 && (2 * i) % 8 == 2 * (i % 8 % 4)
    ensures (2 * i + 1) / 8 == 2 * (i / 8) + i % 8 / 4 && (2 * i + 1) % 8 == 2 * (i % 8 % 4) + 1
  {
  }

  /** From rows to entries, whatever relates an entry to the two it gives. */
  lemma EntriesRelate<T>(t: seq<seq<T>>, i: nat, R: (T, T, T) -> bool)
    requires |t| == 32 && (forall r :: 0 <= r < 32 ==> |t[r]| == 8) && i < 128
    requires var a, b, c := t[i / 8], t[2 * (i / 8)], t[2 * (i / 8) + 1];
             && R(a[0], b[0], b[1]) && R(a[1], b[2], b[3]) && R(a[2], b[4], b[5]) && R(a[3], b[6], b[7])
             && R(a[4], c[0], c[1]) && R(a[5], c[2], c[3]) && R(a[6], c[4], c[5]) && R(a[7], c[6], c[7])
    ensures R(t[i / 8][i % 8], t[2 * i / 8][2 * i % 8], t[(2 * i + 1) / 8][(2 * i + 1) % 8])
  {
    Places(i);
  }

  lemma Entry7Follows(t: seq<seq<bv16>>, i: nat)
    requires IsTable(t) && i < 128 && Follows7(t[i / 8], t[2 * (i / 8)], t[2 * (i / 8) + 1])
    ensures Pair7(Entry(t, i), Entry(t, 2 * i), Entry(t, 2 * i + 1))
  {
    hide Pair7;
    EntriesRelate(t, i, Pair7);
  }

  lemma Entry16Follows(t: seq<seq<bv16>>, i: nat)
    requires IsTable(t) && i < 128 && Follows16(t[i / 8], t[2 * (i / 8)], t[2 * (i / 8) + 1])
    ensures Pair16(Entry(t, i), Entry(t, 2 * i), Entry(t, 2 * i + 1))
  {
    hide Pair16;
    EntriesRelate(t, i, Pair16);
  }

  lemma Table7Follows(i: nat)
    requires i < 128
    ensures IsTable(TABLE7) && Entry(TABLE7, 0) == 0
    ensures Pair7(Entry(TABLE7, i), Entry(TABLE7, 2 * i), Entry(TABLE7, 2 * i + 1))
  {
    hide Follows7, Pair7, TABLE7, TABLE16;
    TablesStart();
    Rows7From0();
    Rows7From4();
    Rows7From8();
    Rows7From12();
    Entry7Follows(TABLE7, i);
  }

  lemma Table16Follows(i: nat)
    requires i < 128
    ensures IsTable(TABLE16) && Entry(TABLE16, 0) == 0
    ensures Pair16(Entry(TABLE16, i), Entry(TABLE16, 2 * i), Entry(TABLE16, 2 * i + 1))
  {
    hide Follows16, Pair16, TABLE7, TABLE16;
    TablesStart();
    Rows16From0();
    Rows16From4();
    Rows16From8();
    Rows16From12();
    Entry16Follows(TABLE16, i);
  }

  lemma Double7IsStep(t: bv16)
    ensures PolyOf(Double7(t), 7) == Step(G7(), PolyOf(t, 7), false) && Narrow(Double7(t))
        && Narrow(WordSum(Double7(t), POLY7))
    ensures PolyOf(WordSum(Double7(t), POLY7), 7) == Xor(Step(G7(), PolyOf(t, 7), false), G7())
  {
    hide BitAt, G7, WordSum, Narrow, POLY7;
    NarrowDouble(t);
    TopBits(t);
    LowSeven(t << 1);
    ShiftOfWords(t, 7);
    BitsOfWordSum(Double7(t), POLY7, 7);
    BitsOfWordSum((t << 1) & 0x7F, POLY7, 7);
    G7Is();
  }

  lemma G7Is()
    ensures G7() == PolyOf(POLY7, 7) && G16() == PolyOf(POLY16, 16)
  {
  }

  lemma NarrowDouble(t: bv16)
    ensures Narrow(Double7(t)) && Narrow(WordSum(Double7(t), POLY7))
  {
  }

  lemma TopBits(t: bv16)
    ensures (t & 0x40 != 0 <==> PolyOf(t, 7)[0]) && (t & 0x8000 != 0 <==> PolyOf(t, 16)[0])
  {
    assert Mask(6) == 0x40 && Mask(15) == 0x8000;
    LowBit(t, 6, 0x40);
    LowBit(t, 15, 0x8000);
    hide BitAt, Mask;
  }

  lemma LowSeven(x: bv16)
    ensures PolyOf(x & 0x7F, 7) == PolyOf(x, 7)
  {
    hide BitAt;
    forall k | 0 <= k < 7 ensures PolyOf(x & 0x7F, 7)[k] == PolyOf(x, 7)[k] { LowSevenAt(x, 6 - k); }
  }

  lemma LowSevenAt(x: bv16, k: nat)
    requires k < 7
    ensures BitAt(x & 0x7F, k) == BitAt(x, k)
  {
  }

  lemma Double16IsStep(t: bv16)
    ensures PolyOf(Double16(t), 16) == Step(G16(), PolyOf(t, 16), false)
    ensures PolyOf(WordSum(Double16(t), POLY16), 16) == Xor(Step(G16(), PolyOf(t, 16), false), G16())
  {
    hide BitAt, G16, WordSum, Narrow, POLY16;
    TopBits(t);
    ShiftOfWords(t, 16);
    BitsOfWordSum(Double16(t), POLY16, 16);
    BitsOfWordSum(t << 1, POLY16, 16);
    G7Is();
  }

  /** Every table entry is the checksum of its index. */
  lemma {:induction false} Table7Is(y: Poly)
    requires |y| <= 8
    ensures IsTable(TABLE7) && Index(y) < Power(|y|) <= 256
    ensures PolyOf(Entry(TABLE7, Index(y)), 7) == Checksum(G7(), y) && Narrow(Entry(TABLE7, Index(y)))
    decreases |y|
  {
    hide TABLE7, G7, Checksum, PolyOf;
    PowersOfTwo(|y|);
    if y == [] {
      Table7Follows(0);
      ChecksumOfNothing(G7());
      PolyOfZero(7);
    } else {
      var init, b := y[..|y| - 1], y[|y| - 1];
      Table7Is(init);
      PowersOfTwo(|init|);
      Table7Step(init, b);
      assert init + [b] == y;
    }
  }

  lemma Table7Step(y: Poly, b: bool)
    requires IsTable(TABLE7) && Index(y) < 128
    requires PolyOf(Entry(TABLE7, Index(y)), 7) == Checksum(G7(), y)
    ensures var i := 2 * Index(y) + (if b then 1 else 0);
            PolyOf(Entry(TABLE7, i), 7) == Checksum(G7(), y + [b]) && Narrow(Entry(TABLE7, i))
  {
    hide TABLE7, Pair7, G7, Checksum, PolyOf, Index, Entry, IsTable;
    var i := Index(y);
    Table7Follows(i);
    PairIs7(Entry(TABLE7, i), Entry(TABLE7, 2 * i), Entry(TABLE7, 2 * i + 1));
    ChecksumStep(G7(), y, b);
  }

  lemma PairIs7(t: bv16, y: bv16, z: bv16)
    requires Pair7(t, y, z)
    ensures PolyOf(y, 7) == Step(G7(), PolyOf(t, 7), false) && Narrow(y)
    ensures PolyOf(z, 7) == Xor(Step(G7(), PolyOf(t, 7), false), G7()) && Narrow(z)
  {
    hide Double7;
    Double7IsStep(t);
  }

  /** Every table entry is the checksum of its index. */
  lemma {:induction false} Table16Is(y: Poly)
    requires |y| <= 8
    ensures IsTable(TABLE16) && Index(y) < Power(|y|) <= 256
    ensures PolyOf(Entry(TABLE16, Index(y)), 16) == Checksum(G16(), y)
    decreases |y|
  {
    hide TABLE16, G16, Checksum, PolyOf;
    PowersOfTwo(|y|);
    if y == [] {
      Table16Follows(0);
      ChecksumOfNothing(G16());
      PolyOfZero(16);
    } else {
      var init, b := y[..|y| - 1], y[|y| - 1];
      Table16Is(init);
      PowersOfTwo(|init|);
      Table16Step(init, b);
      assert init + [b] == y;
    }
  }

  lemma Table16Step(y: Poly, b: bool)
    requires IsTable(TABLE16) && Index(y) < 128
    requires PolyOf(Entry(TABLE16, Index(y)), 16) == Checksum(G16(), y)
    ensures var i := 2 * Index(y) + (if b then 1 else 0);
            PolyOf(Entry(TABLE16, i), 16) == Checksum(G16(), y + [b])
  {
    hide TABLE16, Pair16, G16, Checksum, PolyOf, Index, Entry, IsTable;
    var i := Index(y);
    Table16Follows(i);
    PairIs16(Entry(TABLE16, i), Entry(TABLE16, 2 * i), Entry(TABLE16, 2 * i + 1));
    ChecksumStep(G16(), y, b);
  }

  lemma PairIs16(t: bv16, y: bv16, z: bv16)
    requires Pair16(t, y, z)
    ensures PolyOf(y, 16) == Step(G16(), PolyOf(t, 16), false)
    ensures PolyOf(z, 16) == Xor(Step(G16(), PolyOf(t, 16), false), G16())
  {
    hide Double16;
    Double16IsStep(t);
  }

  lemma {:induction false} PowerGrows(n: nat, m: nat)
    requires n <= m
    ensures Power(n) <= Power(m)
    decreases m
  {
    if n < m { PowerGrows(n, m - 1); }
  }

  lemma PowersOfTwo(n: nat)
    requires n <= 8
    ensures Power(n) <= 256 && (n < 8 ==> Power(n) <= 128)
  {
    assert Power(8) == 256 && Power(7) == 128;
    PowerGrows(n, 8);
    if n < 8 { PowerGrows(n, 7); }
  }

  lemma ChecksumOfNothing(g: Poly)
    requires |g| > 0
    ensures Checksum(g, []) == Zeros(|g|)
  {
    hide Divide;
    ZerosStayZero(g, |g|);
    assert [] + Zeros(|g|) == Zeros(|g|);
  }

  lemma PolyOfZero(w: nat)
    ensures PolyOf(0, w) == Zeros(w)
  {
    hide BitAt;
    forall k | 0 <= k < w ensures !PolyOf(0, w)[k] { NoBit(w - 1 - k); }
  }

  lemma NoBit(k: int)
    ensures !BitAt(0, k)
  {
    if 0 <= k < 16 { assert 0 & Mask(k) == 0; }
  }

  // ---------------------------------------------------------------- the driver's functions

  function ByteBits(d: bv8): (r: Poly)
    ensures |r| == 8
  {
    PolyOf(d as bv16, 8)
  }

  /** The bits of a message, byte by byte. */
  function MessageBits(data: seq<bv8>): Poly
    decreases |data|
  {
    if data == [] then [] else MessageBits(data[..|data| - 1]) + ByteBits(data[|data| - 1])
  }

  /** The index CRC7 looks up, and CRC16. */
  function Index7(crc: bv16, d: bv8): bv16 { (crc << 1) ^ (d as bv16) }
  function Index16(crc: bv16, d: bv8): bv16 { ((crc >> 8) ^ (d as bv16)) & 0xFF }

  /** The body of the loop of CRC7, and of CRC16. */
  function Next7(crc: bv16, d: bv8): (r: bv16)
    requires Narrow(crc)
    ensures Narrow(r)
  {
    hide TABLE7, PolyOf, Index, Entry, Narrow, G7, Checksum;
    IndexPoly7(crc, d);
    Table7Is(PolyOf(Index7(crc, d), 8));
    Entry(TABLE7, Index7(crc, d) as int)
  }

  function Next16(crc: bv16, d: bv8): bv16 {
    hide TABLE16, PolyOf, Index, Entry, G16, Checksum;
    IndexPoly16(crc, d);
    Table16Is(PolyOf(Index16(crc, d), 8));
    Mix(crc, Entry(TABLE16, Index16(crc, d) as int))
  }

  function Mix(crc: bv16, t: bv16): bv16 { (crc << 8) ^ t }

  function Crc7Of(data: seq<bv8>): (r: bv16)
    ensures Narrow(r)
    ensures PolyOf(r, 7) == Checksum(G7(), MessageBits(data))
    decreases |data|
  {
    hide Next7, PolyOf, Checksum, Narrow, G7, Entry;
    if data == [] then Start7(); 0
    else
      var crc, d := Crc7Of(data[..|data| - 1]), data[|data| - 1];
      ByteStep7(crc, MessageBits(data[..|data| - 1]), d);
      Next7(crc, d)
  }

  function Crc16Of(data: seq<bv8>): (r: bv16)
    ensures PolyOf(r, 16) == Checksum(G16(), MessageBits(data))
    decreases |data|
  {
    hide Next16, PolyOf, Checksum, G16, Entry;
    if data == [] then Start7(); 0
    else
      var crc, d := Crc16Of(data[..|data| - 1]), data[|data| - 1];
      ByteStep16(crc, MessageBits(data[..|data| - 1]), d);
      Next16(crc, d)
  }

  lemma Start7()
    ensures Narrow(0) && PolyOf(0, 7) == Checksum(G7(), MessageBits([]))
        && PolyOf(0, 16) == Checksum(G16(), MessageBits([]))
  {
    hide Checksum, G7, G16;
    ChecksumOfNothing(G7());
    ChecksumOfNothing(G16());
    PolyOfZero(7);
    PolyOfZero(16);
  }

  /** One byte of the table-driven loop is one byte of the division. */
  lemma ByteStep7(crc: bv16, m: Poly, d: bv8)
    requires Narrow(crc) && PolyOf(crc, 7) == Checksum(G7(), m)
    ensures PolyOf(Next7(crc, d), 7) == Checksum(G7(), m + ByteBits(d))
  {
    hide TABLE7, G7, Checksum, Index, PolyOf, Entry, Index7, Narrow;
    IndexPoly7(crc, d);
    Table7Is(PolyOf(Index7(crc, d), 8));
    NarrowByteStep(G7(), m, ByteBits(d));
  }

  lemma IndexPoly7(crc: bv16, d: bv8)
    requires Narrow(crc)
    ensures Index7(crc, d) as int < 256 && Index(PolyOf(Index7(crc, d), 8)) == Index7(crc, d) as int
    ensures PolyOf(Index7(crc, d), 8) == Xor(PolyOf(crc, 7) + Zeros(1), ByteBits(d))
  {
    IndexIsByte7(crc, d);
    hide BitAt, Index, Narrow;
    IndexOfByte(Index7(crc, d));
    XorOfWords(crc << 1, d as bv16, 8);
    ShiftOfWords(crc, 8);
    assert PolyOf(crc, 8)[1..] == PolyOf(crc, 7);
    assert Zeros(1) == [false];
  }

  lemma IndexIsByte7(crc: bv16, d: bv8)
    requires Narrow(crc)
    ensures Index7(crc, d) & 0xFF == Index7(crc, d)
  {
  }

  lemma ByteStep16(crc: bv16, m: Poly, d: bv8)
    requires PolyOf(crc, 16) == Checksum(G16(), m)
    ensures PolyOf(Next16(crc, d), 16) == Checksum(G16(), m + ByteBits(d))
  {
    hide TABLE16, G16, Checksum, Index, PolyOf, Entry, Index16, Mix;
    IndexPoly16(crc, d);
    Table16Is(PolyOf(Index16(crc, d), 8));
    WideByteStep(G16(), m, ByteBits(d));
    ShiftAndXor(crc, Entry(TABLE16, Index16(crc, d) as int));
  }

  lemma ShiftAndXor(crc: bv16, t: bv16)
    ensures PolyOf(Mix(crc, t), 16) == Xor(PolyOf(crc, 16)[8..] + Zeros(8), PolyOf(t, 16))
  {
    hide BitAt, PolyOf;
    ShiftOfWords(crc, 16);
    XorOfWords(crc << 8, t, 16);
  }

  lemma IndexPoly16(crc: bv16, d: bv8)
    ensures Index16(crc, d) as int < 256 && Index(PolyOf(Index16(crc, d), 8)) == Index16(crc, d) as int
    ensures PolyOf(Index16(crc, d), 8) == Xor(PolyOf(crc, 16)[..8], ByteBits(d))
  {
    IndexIsByte16(crc, d);
    hide BitAt, Index;
    IndexOfByte(Index16(crc, d));
    LowEight((crc >> 8) ^ (d as bv16));
    XorOfWords(crc >> 8, d as bv16, 8);
    ShiftOfWords(crc, 16);
  }

  lemma IndexIsByte16(crc: bv16, d: bv8)
    ensures Index16(crc, d) & 0xFF == Index16(crc, d)
  {
  }

  lemma LowEight(x: bv16)
    ensures PolyOf(x & 0xFF, 8) == PolyOf(x, 8)
  {
    hide BitAt;
    forall k | 0 <= k < 8 ensures PolyOf(x & 0xFF, 8)[k] == PolyOf(x, 8)[k] { LowEightAt(x, 7 - k); }
  }

  lemma LowEightAt(x: bv16, k: nat)
    requires k < 8
    ensures BitAt(x & 0xFF, k) == BitAt(x, k)
  {
  }

  /** CRC7. */
  method CRC7(data: seq<bv8>) returns (crc: bv16)
    ensures crc == Crc7Of(data)
  {
    hide Next7, PolyOf, Checksum, Narrow;
    crc := 0;
    NarrowZero();
    for i := 0 to |data|
      invariant Narrow(crc) && crc == Crc7Of(data[..i])
    {
      assert data[..i + 1][..i] == data[..i];
      crc := Next7(crc, data[i]);
    }
    assert data[..|data|] == data;
  }

  lemma NarrowZero()
    ensures Narrow(0)
  {
  }

  /** CRC16. */
  method CRC16(data: seq<bv8>) returns (crc: bv16)
    ensures crc == Crc16Of(data)
  {
    hide Next16, PolyOf, Checksum;
    crc := 0;
    for i := 0 to |data|
      invariant crc == Crc16Of(data[..i])
    {
      assert data[..i + 1][..i] == data[..i];
      crc := Next16(crc, data[i]);
    }
    assert data[..|data|] == data;
  }

  // ---------------------------------------------------------------- what the checksums are good for

  lemma NoLowBits(x: bv16)
    requires Narrow(x)
    requires x & 1 == 0 && x & 2 == 0 && x & 4 == 0 && x & 8 == 0 && x & 16 == 0 && x & 32 == 0 && x & 64 == 0
    ensures x == 0
  {
  }

  lemma NoBits(x: bv16)
    requires x & 1 == 0 && x & 2 == 0 && x & 4 == 0 && x & 8 == 0 && x & 16 == 0 && x & 32 == 0 && x & 64 == 0
        && x & 128 == 0
    requires x & 0x100 == 0 && x & 0x200 == 0 && x & 0x400 == 0 && x & 0x800 == 0
    requires x & 0x1000 == 0 && x & 0x2000 == 0 && x & 0x4000 == 0 && x & 0x8000 == 0
    ensures x == 0
  {
  }

  lemma ClearBit(x: bv16, w: nat, k: nat, m: bv16)
    requires k < w <= 16 && PolyOf(x, w) == Zeros(w) && Mask(k) == m
    ensures x & m == 0
  {
    LowBit(x, k, m);
    hide BitAt, Mask;
    assert !PolyOf(x, w)[w - 1 - k];
  }

  lemma ZeroWord(x: bv16, w: nat)
    requires PolyOf(x, w) == Zeros(w) && ((w == 7 && Narrow(x)) || w == 16)
    ensures x == 0
  {
    hide PolyOf, Mask, Narrow;
    Masks();
    HighMasks();
    ClearBit(x, w, 0, 1);
    ClearBit(x, w, 1, 2);
    ClearBit(x, w, 2, 4);
    ClearBit(x, w, 3, 8);
    ClearBit(x, w, 4, 16);
    ClearBit(x, w, 5, 32);
    ClearBit(x, w, 6, 64);
    if w == 7 {
      NoLowBits(x);
    } else {
      ClearBit(x, w, 7, 128);
      ClearBit(x, w, 8, 0x100);
      ClearBit(x, w, 9, 0x200);
      ClearBit(x, w, 10, 0x400);
      ClearBit(x, w, 11, 0x800);
      ClearBit(x, w, 12, 0x1000);
      ClearBit(x, w, 13, 0x2000);
      ClearBit(x, w, 14, 0x4000);
      ClearBit(x, w, 15, 0x8000);
      NoBits(x);
    }
  }

  lemma HighMasks()
    ensures Mask(8) == 0x100 && Mask(9) == 0x200 && Mask(10) == 0x400 && Mask(11) == 0x800
    ensures Mask(12) == 0x1000 && Mask(13) == 0x2000 && Mask(14) == 0x4000 && Mask(15) == 0x8000
  {
  }

  /** Words with the same bits are the same. */
  lemma SameWord(x: bv16, y: bv16, w: nat)
    requires PolyOf(x, w) == PolyOf(y, w) && ((w == 7 && Narrow(x) && Narrow(y)) || w == 16)
    ensures x == y
  {
    NarrowXor(x, y);
    hide PolyOf, Narrow;
    XorOfWords(x, y, w);
    XorWithZero(PolyOf(x, w));
    ZeroWord(x ^ y, w);
    XorIsZero(x, y);
  }

  lemma XorIsZero(x: bv16, y: bv16)
    requires x ^ y == 0
    ensures x == y
  {
  }

  function ByteSum(x: bv8, y: bv8): bv8 { x ^ y }

  /** `^` on each byte of two messages. */
  function XorBytes(a: seq<bv8>, b: seq<bv8>): (r: seq<bv8>)
    requires |a| == |b|
    ensures |r| == |a|
  {
    seq(|a|, i requires 0 <= i < |a| => ByteSum(a[i], b[i]))
  }

  lemma BitsOfByteSum(x: bv8, y: bv8)
    ensures ByteBits(ByteSum(x, y)) == Xor(ByteBits(x), ByteBits(y))
  {
    WidenXor(x, y);
    XorOfWords(x as bv16, y as bv16, 8);
  }

  lemma WidenXor(x: bv8, y: bv8)
    ensures (x ^ y) as bv16 == (x as bv16) ^ (y as bv16)
  {
  }

  lemma {:induction false} XorOfMessages(a: seq<bv8>, b: seq<bv8>)
    requires |a| == |b|
    ensures |MessageBits(a)| == |MessageBits(b)|
    ensures MessageBits(XorBytes(a, b)) == Xor(MessageBits(a), MessageBits(b))
    decreases |a|
  {
    hide PolyOf, ByteSum, ByteBits;
    if a != [] {
      var n := |a| - 1;
      XorOfMessages(a[..n], b[..n]);
      assert XorBytes(a, b)[..n] == XorBytes(a[..n], b[..n]);
      BitsOfByteSum(a[n], b[n]);
      XorOfParts(MessageBits(a[..n]), ByteBits(a[n]), MessageBits(b[..n]), ByteBits(b[n]));
    }
  }

  lemma XorOfParts(a: Poly, c: Poly, b: Poly, d: Poly)
    requires |a| == |b| && |c| == |d|
    ensures Xor(a + c, b + d) == Xor(a, b) + Xor(c, d)
  {
  }

  /** The checksums are linear. */
  lemma ChecksumsAreLinear(a: seq<bv8>, b: seq<bv8>)
    requires |a| == |b|
    ensures Crc7Of(XorBytes(a, b)) == WordSum(Crc7Of(a), Crc7Of(b))
    ensures Crc16Of(XorBytes(a, b)) == WordSum(Crc16Of(a), Crc16Of(b))
  {
    hide PolyOf, Narrow, Next7, Next16, Checksum, MessageBits, Crc7Of, Crc16Of, G7, G16, XorBytes, WordSum;
    XorOfMessages(a, b);
    ChecksumIsLinear(G7(), MessageBits(a), MessageBits(b));
    BitsOfWordSum(Crc7Of(a), Crc7Of(b), 7);
    SameWord(Crc7Of(XorBytes(a, b)), WordSum(Crc7Of(a), Crc7Of(b)), 7);
    ChecksumIsLinear(G16(), MessageBits(a), MessageBits(b));
    BitsOfWordSum(Crc16Of(a), Crc16Of(b), 16);
    SameWord(Crc16Of(XorBytes(a, b)), WordSum(Crc16Of(a), Crc16Of(b)), 16);
  }

  /** Messages of the same length that differ in one burst have different checksums. */
  lemma BurstsAreDetected(a: seq<bv8>, b: seq<bv8>, before: nat, burst: Poly, after: nat)
    requires |a| == |b| && |MessageBits(a)| == |MessageBits(b)|
    requires Xor(MessageBits(a), MessageBits(b)) == Zeros(before) + burst + Zeros(after) && true in burst
    ensures |burst| <= 7 ==> Crc7Of(a) != Crc7Of(b)
    ensures |burst| <= 16 ==> Crc16Of(a) != Crc16Of(b)
  {
    hide PolyOf, Narrow, Next7, Next16, Checksum, MessageBits, Crc7Of, Crc16Of, G7, G16;
    if |burst| <= 7 { BurstIsDetected(G7(), MessageBits(a), MessageBits(b), before, burst, after); }
    if |burst| <= 16 { BurstIsDetected(G16(), MessageBits(a), MessageBits(b), before, burst, after); }
  }

  /** The byte CRC7 is sent in, and the two bytes of CRC16. */
  function Sent7(crc: bv16): bv8
    requires Narrow(crc)
  {
    assert crc << 1 < 0x100;
    (crc << 1) as bv8
  }

  function High(crc: bv16): bv8 { (crc >> 8) as bv8 }
  function Low(crc: bv16): bv8 { (crc & 0xFF) as bv8 }

  lemma BitsOfSent(crc: bv16)
    ensures Narrow(crc) ==> ByteBits(Sent7(crc)) == PolyOf(crc, 7) + Zeros(1)
    ensures ByteBits(High(crc)) + ByteBits(Low(crc)) == PolyOf(crc, 16)
  {
    SentIs(crc);
    hide BitAt, Narrow, Sent7, High, Low, PolyOf, Zeros;
    ShiftOfWords(crc, 8);
    ShiftOfWords(crc, 16);
    LowEight(crc);
    PartsOfPoly(crc);
  }

  lemma PartsOfPoly(crc: bv16)
    ensures PolyOf(crc, 8)[1..] == PolyOf(crc, 7) && PolyOf(crc, 8) == PolyOf(crc, 16)[8..]
    ensures Zeros(1) == [false]
  {
    hide BitAt;
  }

  lemma SentIs(crc: bv16)
    ensures Narrow(crc) ==> Sent7(crc) as bv16 == crc << 1
    ensures High(crc) as bv16 == crc >> 8 && Low(crc) as bv16 == crc & 0xFF
  {
  }

  /** A message with its checksum behind it has checksum 0. */
  lemma AppendedCrc7GivesZero(data: seq<bv8>)
    ensures Crc7Of(data + [Sent7(Crc7Of(data))]) == 0
  {
    hide PolyOf, Narrow, Next7, Next16, Checksum, Crc7Of, G7, G16, Sent7, High, Low, ByteBits;
    var c := Crc7Of(data);
    BitsOfSent(c);
    MessageGrows(data, Sent7(c));
    ZeroRemainder(G7(), MessageBits(data), 1);
    ZeroWord(Crc7Of(data + [Sent7(c)]), 7);
  }

  lemma AppendedCrc16GivesZero(data: seq<bv8>)
    ensures Crc16Of(data + [High(Crc16Of(data)), Low(Crc16Of(data))]) == 0
  {
    hide PolyOf, Narrow, Next7, Next16, Checksum, Crc16Of, G7, G16, Sent7, High, Low, ByteBits;
    var c, m := Crc16Of(data), MessageBits(data);
    BitsOfSent(c);
    MessageGrows(data, High(c));
    MessageGrows(data + [High(c)], Low(c));
    assert data + [High(c)] + [Low(c)] == data + [High(c), Low(c)];
    ZeroRemainder(G16(), m, 0);
    assert Checksum(G16(), m) + Zeros(0) == Checksum(G16(), m);
    assert m + ByteBits(High(c)) + ByteBits(Low(c)) == m + (ByteBits(High(c)) + ByteBits(Low(c)));
    ZeroWord(Crc16Of(data + [High(c), Low(c)]), 16);
  }

  lemma MessageGrows(data: seq<bv8>, d: bv8)
    ensures MessageBits(data + [d]) == MessageBits(data) + ByteBits(d)
  {
    hide PolyOf;
    assert (data + [d])[..|data|] == data;
  }

  lemma ZeroRemainder(g: Poly, m: Poly, n: nat)
    requires |g| > 0
    ensures Checksum(g, m + (Checksum(g, m) + Zeros(n))) == Zeros(|g|)
  {
    hide Divide;
    AppendedGivesZero(g, m, n + |g|);
    var sum := Checksum(g, m);
    assert m + (sum + Zeros(n)) + Zeros(|g|) == m + sum + Zeros(n + |g|);
  }
}
