/**
 The File Allocation Table as an array of 12-, 16- or 32-bit entries packed into a flat run of bytes
 (Microsoft FAT32 File System Specification v1.03, section "FAT Data Structure"; ff.c get_fat and put_fat).
 */
module FatEntries {
  import opened Arith
  import opened Bytes

  datatype FatType = Fat12 | Fat16 | Fat32

  /** Index of the first byte of entry `c`. */
  function EntryOffset(t: FatType, c: nat): nat {
    match t
    case Fat12 => c + c / 2
    case Fat16 => c * 2
    case Fat32 => c * 4
  }

  function EntryWidth(t: FatType): nat {
    if t == Fat32 then 4 else 2
  }

  /** Bytes a table of `n` entries needs, as the mount code computes it. */
  function TableBytes(t: FatType, n: nat): nat {
    match t
    case Fat12 => n * 3 / 2 + n % 2
    case Fat16 => n * 2
    case Fat32 => n * 4
  }

  /** What is left of `v` once it has been stored in an entry. */
  function Cut(t: FatType, v: nat): nat {
    match t
    case Fat12 => v % 0x1000
    case Fat16 => v % 0x1_0000
    case Fat32 => v % 0x1000_0000
  }

  lemma EntryFits(t: FatType, n: nat, c: nat)
    requires c < n
    ensures EntryOffset(t, c) + EntryWidth(t) <= TableBytes(t, n)
  {
    var q := n / 2;
    if n % 2 == 0 {
      assert n == 2 * q && n * 3 / 2 == 3 * q;
    } else {
      assert n == 2 * q + 1 && n * 3 / 2 == 3 * q + 1;
    }
  }

  /** The value get_fat extracts for entry `c`. */
  function Decode(t: FatType, fat: seq<byte>, c: nat): (v: nat)
    requires EntryOffset(t, c) + EntryWidth(t) <= |fat|
    ensures v == Cut(t, v)
  {
    var o := EntryOffset(t, c);
    match t
    case Fat12 => if c % 2 == 1 then LdWord(fat, o) / 16 else LdWord(fat, o) % 0x1000
    case Fat16 => LdWord(fat, o)
    case Fat32 => LdDword(fat, o) % 0x1000_0000
  }

  /** The top four bits of a FAT32 entry, which are reserved. */
  function Reserved(t: FatType, fat: seq<byte>, c: nat): nat
    requires EntryOffset(t, c) + EntryWidth(t) <= |fat|
  {
    if t == Fat32 then LdDword(fat, EntryOffset(t, c)) / 0x1000_0000 else 0
  }

  /** The byte put_fat leaves at position `k` of entry `c`, counted from EntryOffset, given the byte `was` found
      there. */
  function StoredByte(t: FatType, c: nat, v: nat, k: nat, was: byte): byte
    requires k < EntryWidth(t)
  {
    match t
    case Fat12 =>
      if c % 2 == 1 then
        if k == 0 then was % 16 + v % 16 * 16 else v / 16 % 0x100
      else
        if k == 0 then v % 0x100 else was / 16 * 16 + v / 0x100 % 16
    case Fat16 => Byte(v, k)
    case Fat32 => if k == 3 then was / 16 * 16 + v / 0x100_0000 % 16 else Byte(v, k)
  }

  /** The table after put_fat has stored `v` in entry `c`. */
  function Encode(t: FatType, fat: seq<byte>, c: nat, v: nat): (r: seq<byte>)
    requires EntryOffset(t, c) + EntryWidth(t) <= |fat|
    ensures |r| == |fat|
  {
    var o := EntryOffset(t, c);
    var r := fat[o := StoredByte(t, c, v, 0, fat[o])][o + 1 := StoredByte(t, c, v, 1, fat[o + 1])];
    if t == Fat32 then
      r[o + 2 := StoredByte(t, c, v, 2, fat[o + 2])][o + 3 := StoredByte(t, c, v, 3, fat[o + 3])]
    else
      r
  }

  /** Splitting a stored value into the pieces the entry formats use. */
  lemma Nibbles(v: nat)
    ensures v % 0x1000 == v % 0x100 + 0x100 * (v / 0x100 % 16)
    ensures v % 0x1000 == v % 16 + 16 * (v / 16 % 0x100)
    ensures v % 0x1_0000 == v % 0x100 + 0x100 * (v / 0x100 % 0x100)
  {
    ModSplit(v, 0x100, 16);
    ModSplit(v, 16, 0x100);
    ModSplit(v, 0x100, 0x100);
  }

  lemma LowNibbles(v: nat)
    ensures v % 0x1000_0000 == v % 0x100_0000 + 0x100_0000 * (v / 0x100_0000 % 16)
    ensures v % 0x100_0000 == v % 0x100 + 0x100 * (v / 0x100 % 0x100) + 0x1_0000 * (v / 0x1_0000 % 0x100)
  {
    ModSplit(v, 0x100_0000, 16);
    ModSplit(v, 0x1_0000, 0x100);
    ModSplit(v, 0x100, 0x100);
  }

  /** An entry reads back as the stored value cut to the entry's width. */
  lemma EncodeThenDecode(t: FatType, fat: seq<byte>, c: nat, v: nat)
    requires EntryOffset(t, c) + EntryWidth(t) <= |fat|
    ensures Decode(t, Encode(t, fat, c, v), c) == Cut(t, v)
  {
    match t
    case Fat12 => Encode12ThenDecode(fat, c, v);
    case Fat16 => Nibbles(v);
    case Fat32 => Encode32ThenDecode(fat, c, v);
  }

  lemma Encode32ThenDecode(fat: seq<byte>, c: nat, v: nat)
    requires c * 4 + 4 <= |fat|
    ensures Decode(Fat32, Encode(Fat32, fat, c, v), c) == Cut(Fat32, v)
  {
    var o, r := c * 4, Encode(Fat32, fat, c, v);
    assert r[o] == Byte(v, 0) && r[o + 1] == Byte(v, 1) && r[o + 2] == Byte(v, 2);
    TopNibble(fat[o + 3], v / 0x100_0000);
    assert r[o + 3] % 16 == v / 0x100_0000 % 16;
    LowNibbles(v);
    DwordLow28(r, o);
    hide Encode;
  }

  lemma TopNibble(was: byte, v: nat)
    ensures (was / 16 * 16 + v % 16) % 16 == v % 16
  {
  }

  lemma Encode12ThenDecode(fat: seq<byte>, c: nat, v: nat)
    requires c + c / 2 + 2 <= |fat|
    ensures Decode(Fat12, Encode(Fat12, fat, c, v), c) == v % 0x1000
  {
    var o := c + c / 2;
    var r := Encode(Fat12, fat, c, v);
    Nibbles(v);
    Fat12Parts(r, o);
    if c % 2 == 1 {
      DivUnique(r[o], 16, v % 16, fat[o] % 16);
    } else {
      DivUnique(r[o + 1], 16, fat[o + 1] / 16, v / 0x100 % 16);
    }
  }

  lemma DwordLow28(b: seq<byte>, o: nat)
    requires o + 3 < |b|
    ensures LdDword(b, o) % 0x1000_0000 == LdWord(b, o) + 0x1_0000 * b[o + 2] as int
        + 0x100_0000 * (b[o + 3] % 16) as int
    ensures LdDword(b, o) / 0x1000_0000 == b[o + 3] as int / 16
  {
  }

  /** The bytes of entry `c` are the only ones that storing it can change. */
  lemma EncodeFrame(t: FatType, fat: seq<byte>, c: nat, v: nat, i: nat)
    requires EntryOffset(t, c) + EntryWidth(t) <= |fat|
    requires i < |fat|
    ensures !(EntryOffset(t, c) <= i < EntryOffset(t, c) + EntryWidth(t)) ==> Encode(t, fat, c, v)[i] == fat[i]
    ensures t == Fat12 && c % 2 == 0 && i == EntryOffset(t, c) + 1 ==> Encode(t, fat, c, v)[i] / 16 == fat[i] / 16
    ensures t == Fat12 && c % 2 == 1 && i == EntryOffset(t, c) ==> Encode(t, fat, c, v)[i] % 16 == fat[i] % 16
    ensures t == Fat32 && i == EntryOffset(t, c) + 3 ==> Encode(t, fat, c, v)[i] / 16 == fat[i] / 16
  {
  }

  /** Storing one entry leaves every other one alone, also when FAT12 entries share a byte. */
  lemma EncodeKeepsOthers(t: FatType, fat: seq<byte>, c: nat, v: nat, d: nat)
    requires EntryOffset(t, c) + EntryWidth(t) <= |fat|
    requires EntryOffset(t, d) + EntryWidth(t) <= |fat|
    requires c != d
    ensures Decode(t, Encode(t, fat, c, v), d) == Decode(t, fat, d)
  {
    var p := EntryOffset(t, d);
    EncodeFrame(t, fat, c, v, p);
    EncodeFrame(t, fat, c, v, p + 1);
    hide Encode;
    match t
    case Fat12 => Keeps12(fat, Encode(t, fat, c, v), c, d);
    case Fat16 =>
    case Fat32 => EncodeFrame(t, fat, c, v, p + 2); EncodeFrame(t, fat, c, v, p + 3);
  }

  lemma Keeps12(fat: seq<byte>, r: seq<byte>, c: nat, d: nat)
    requires |r| == |fat| && d + d / 2 + 1 < |fat| && c != d
    requires !(c + c / 2 <= d + d / 2 < c + c / 2 + 2) ==> r[d + d / 2] == fat[d + d / 2]
    requires !(c + c / 2 <= d + d / 2 + 1 < c + c / 2 + 2) ==> r[d + d / 2 + 1] == fat[d + d / 2 + 1]
    requires c % 2 == 0 && d + d / 2 == c + c / 2 + 1 ==> r[d + d / 2] / 16 == fat[d + d / 2] / 16
    requires c % 2 == 1 && d + d / 2 + 1 == c + c / 2 ==> r[d + d / 2 + 1] % 16 == fat[d + d / 2 + 1] % 16
    ensures Decode(Fat12, r, d) == Decode(Fat12, fat, d)
  {
    Fat12Parts(fat, d + d / 2);
    Fat12Parts(r, d + d / 2);
  }

  lemma Fat12Parts(b: seq<byte>, o: nat)
    requires o + 1 < |b|
    ensures LdWord(b, o) / 16 == b[o] as int / 16 + 16 * b[o + 1] as int
    ensures LdWord(b, o) % 0x1000 == b[o] as int + 0x100 * (b[o + 1] as int % 16)
  {
    var lo, hi := b[o] as int, b[o + 1] as int;
    DivUnique(lo + 0x100 * hi, 16, lo / 16 + 16 * hi, lo % 16);
    DivUnique(lo + 0x100 * hi, 0x1000, hi / 16, lo + 0x100 * (hi % 16));
  }

  /** FAT32 entries keep their reserved bits, the one written included. */
  lemma EncodeKeepsReserved(t: FatType, fat: seq<byte>, c: nat, v: nat, d: nat)
    requires EntryOffset(t, c) + EntryWidth(t) <= |fat|
    requires EntryOffset(t, d) + EntryWidth(t) <= |fat|
    ensures Reserved(t, Encode(t, fat, c, v), d) == Reserved(t, fat, d)
  {
    if t == Fat32 {
      var p := EntryOffset(t, d);
      EncodeFrame(t, fat, c, v, p + 3);
      DwordLow28(fat, p);
      DwordLow28(Encode(t, fat, c, v), p);
    }
  }

  lemma Digits(v: nat, b0: byte, b1: byte, b2: byte, b3: byte)
    requires v == b0 as int + 0x100 * b1 as int + 0x1_0000 * b2 as int + 0x100_0000 * b3 as int
    ensures Byte(v, 0) == b0 && Byte(v, 1) == b1 && v / 0x1_0000 == b2 as int + 0x100 * b3 as int
    ensures Byte(v / 0x1_0000, 0) == b2 && Byte(v / 0x1_0000, 1) == b3
  {
    var hi := b2 as int + 0x100 * b3 as int;
    DivUnique(v, 0x100, b1 as int + 0x100 * hi, b0);
    DivUnique(v, 0x1_0000, hi, b0 as int + 0x100 * b1 as int);
    DivUnique(hi, 0x100, b3, b2);
  }

  /** Storing a FAT32 entry with the reserved bits it already had is storing its low 28 bits. */
  lemma KeepTopNibble(fat: seq<byte>, c: nat, val: nat, v: nat)
    requires c * 4 + 3 < |fat|
    requires v == val % 0x1000_0000 + LdDword(fat, c * 4) / 0x1000_0000 * 0x1000_0000
    ensures var o := c * 4;
            Encode(Fat32, fat, c, val) == fat[o := Byte(v, 0)][o + 1 := Byte(v, 1)]
                                          [o + 2 := Byte(v / 0x1_0000, 0)][o + 3 := Byte(v / 0x1_0000, 1)]
  {
    DwordLow28(fat, c * 4);
    LowNibbles(val);
    Digits(v, Byte(val, 0), Byte(val, 1), Byte(val, 2), fat[c * 4 + 3] / 16 * 16 + val / 0x100_0000 % 16);
  }
}
