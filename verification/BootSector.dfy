/** The boot sector and partition table f_mkfs writes and the mount code reads
    (ff.c; section "Boot Sector and BPB" of the Microsoft FAT32 File System Specification). */
module BootSector {
  import opened Bytes
  import opened FatEntries
  import opened FormatLayout

  type sector = b: seq<byte> | |b| >= 512 witness seq(512, _ => 0)

  /** Jump code and OEM name; volume labels with the name of the file system. */
  const JUMP: seq<byte> := [0xEB, 0xFE, 0x90, 0x4D, 0x53, 0x44, 0x4F, 0x53, 0x35, 0x2E, 0x30]
  const LABEL: seq<byte> := [0x4E, 0x4F, 0x20, 0x4E, 0x41, 0x4D, 0x45, 0x20, 0x20, 0x20, 0x20, 0x46, 0x41, 0x54, 0x20,
      0x20, 0x20, 0x20, 0x20]
  const LABEL32: seq<byte> := [0x4E, 0x4F, 0x20, 0x4E, 0x41, 0x4D, 0x45, 0x20, 0x20, 0x20, 0x20, 0x46, 0x41, 0x54,
      0x33, 0x32, 0x20, 0x20, 0x20]

  function Zeros(n: nat): (r: seq<byte>)
    ensures |r| == n && forall i :: 0 <= i < n ==> r[i] == 0
  {
    seq(n, _ => 0)
  }

  /** mem_cpy. */
  function PutBytes(b: sector, o: nat, data: seq<byte>): (r: sector)
    requires o + |data| <= |b|
    ensures |r| == |b|
    ensures forall i :: 0 <= i < |b| ==> r[i] == if o <= i < o + |data| then data[i - o] else b[i]
  {
    b[..o] + data + b[o + |data|..]
  }

  /** Two sectors with the same bytes outside `lo`..`hi`. */
  ghost predicate SameBut(b: sector, r: sector, lo: nat, hi: nat) {
    |r| == |b| && forall i :: 0 <= i < |b| && !(lo <= i < hi) ==> r[i] == b[i]
  }

  function PutSizes(b: sector, f: Bpb): (r: sector)
    requires b == Zeros(|b|) && f.bytsPerSec < 0x1_0000 && f.secPerClus < 0x100 && f.rsvdSecCnt < 0x1_0000
        && f.numFats < 0x100
    ensures SameBut(b, r, 0, 17)
    ensures r[0] == 0xEB && r[2] == 0x90 && LdWord(r, 11) == f.bytsPerSec && r[13] == f.secPerClus
    ensures LdWord(r, 14) == f.rsvdSecCnt && r[16] == f.numFats
    ensures LdWord(r, 19) == 0 && LdWord(r, 22) == 0 && LdDword(r, 32) == 0 && LdWord(r, 42) == 0
  {
    var b1 := StWord(PutBytes(b, 0, JUMP), 11, f.bytsPerSec)[13 := f.secPerClus];
    StWord(b1, 14, f.rsvdSecCnt)[16 := f.numFats]
  }

  function PutCounts(b: sector, f: Bpb, base: nat): (r: sector)
    requires f.rootEntCnt < 0x1_0000 && f.totSec16 < 0x1_0000 && f.totSec32 < 0x1_0000_0000 && LdWord(b, 22) == 0
    requires f.totSec16 != 0 ==> f.totSec32 == 0
    requires LdWord(b, 19) == 0 && LdDword(b, 32) == 0
    ensures SameBut(b, r, 17, 36)
    ensures LdWord(r, 17) == f.rootEntCnt && LdWord(r, 19) == f.totSec16 && LdWord(r, 22) == 0
        && LdDword(r, 32) == f.totSec32
    ensures LdWord(r, 42) == LdWord(b, 42)
  {
    BytesOfDword(f.totSec32);
    var b1 := StWord(b, 17, f.rootEntCnt);
    var b2 := if f.totSec16 != 0 then StWord(b1, 19, f.totSec16) else StDword(b1, 32, f.totSec32);
    StDword(StWord(StWord(b2[21 := 0xF8], 24, 63), 26, 255), 28, base)
  }

  function PutLarge(b: sector, f: Bpb, volId: nat): (r: sector)
    requires f.fatSz32 < 0x1_0000_0000 && f.rootClus < 0x1_0000_0000 && f.fsInfo < 0x1_0000 && LdWord(b, 42) == 0
    ensures SameBut(b, r, 36, 90)
    ensures LdDword(r, 36) == f.fatSz32 && LdWord(r, 42) == 0 && LdDword(r, 44) == f.rootClus
        && LdWord(r, 48) == f.fsInfo
    ensures LdDword(r, 82) == 0x3354_4146
  {
    BytesOfDword(f.fatSz32);
    BytesOfDword(f.rootClus);
    var b1 := StDword(StDword(StDword(b, 67, volId), 36, f.fatSz32), 44, f.rootClus);
    PutBytes(StWord(StWord(b1, 48, f.fsInfo), 50, 6)[64 := 0x80][66 := 0x29], 71, LABEL32)
  }

  function PutSmall(b: sector, f: Bpb, volId: nat): (r: sector)
    requires f.fatSz16 < 0x1_0000
    ensures SameBut(b, r, 22, 62)
    ensures forall i :: 24 <= i < 36 ==> r[i] == b[i]
    ensures LdWord(r, 22) == f.fatSz16 && LdDword(r, 54) % 0x100_0000 == 0x54_4146
  {
    PutBytes(StWord(StDword(b, 39, volId), 22, f.fatSz16)[36 := 0x80][38 := 0x29], 43, LABEL)
  }

  /** The boot sector of a volume with the given fields. */
  function Build(ss: nat, f: Bpb, base: nat, large: bool, volId: nat): (r: sector)
    requires ss >= 512 && Storable(f)
    ensures |r| == ss
  {
    var b := PutCounts(PutSizes(Zeros(ss), f), f, base);
    StWord(if large then PutLarge(b, f, volId) else PutSmall(b, f, volId), 510, 0xAA55)
  }

  predicate Storable(f: Bpb) {
    && f.bytsPerSec < 0x1_0000 && f.secPerClus < 0x100 && f.rsvdSecCnt < 0x1_0000 && f.numFats < 0x100
    && f.rootEntCnt < 0x1_0000 && f.totSec16 < 0x1_0000 && f.totSec32 < 0x1_0000_0000 && f.fatSz16 < 0x1_0000
    && f.fatSz32 < 0x1_0000_0000 && f.rootClus < 0x1_0000_0000 && f.fsInfo < 0x1_0000 && f.fsVer == 0
    && (f.totSec16 != 0 ==> f.totSec32 == 0)
  }

  /** check_fs on a sector with a boot signature: is it a FAT boot sector? */
  predicate IsFatVbr(b: sector) {
    && (b[0] == 0xE9 || (b[0] == 0xEB && b[2] == 0x90))
    && (LdDword(b, 54) % 0x100_0000 == 0x54_4146 || LdDword(b, 82) == 0x3354_4146)
  }

  /** The fields as they lie in a sector. */
  function Read(b: sector): Bpb {
    Bpb(LdWord(b, 11), b[13], LdWord(b, 14), b[16], LdWord(b, 17), LdWord(b, 19), LdWord(b, 22), LdDword(b, 32),
        LdDword(b, 36), LdWord(b, 42), LdDword(b, 44), LdWord(b, 48))
  }

  /** Two sets of fields the mount code treats alike on a volume with a fixed root directory. */
  ghost predicate AlikeSmall(f: Bpb, g: Bpb) {
    && f.bytsPerSec == g.bytsPerSec && f.secPerClus == g.secPerClus && f.rsvdSecCnt == g.rsvdSecCnt
        && f.numFats == g.numFats
    && f.rootEntCnt == g.rootEntCnt && f.totSec16 == g.totSec16 && f.fatSz16 == g.fatSz16 && f.totSec32 == g.totSec32
  }

  lemma AcceptedAlike(f: Bpb, g: Bpb, ss: nat, base: nat)
    requires SectorSize(ss) && AlikeSmall(g, f) && f.fatSz16 != 0 && f.rootEntCnt != 0
    ensures Accept(f, ss, base) == Accept(g, ss, base)
  {
    hide U32, SectorSize, ClusterSize, TableBytes;
  }

  /** A boot sector is recognised, and its fields read back. */
  lemma BuiltReads(ss: nat, f: Bpb, base: nat, large: bool, volId: nat)
    requires ss >= 512 && Storable(f) && (large ==> f.fatSz16 == 0)
    ensures var b := Build(ss, f, base, large, volId);
            && LdWord(b, 510) == 0xAA55 && IsFatVbr(b)
            && AlikeSmall(Read(b), f) && (large ==> Read(b) == f)
  {
    hide PutSizes, PutCounts, PutLarge, PutSmall, IsFatVbr, Read, StWord, LdWord;
    var b1 := PutCounts(PutSizes(Zeros(ss), f), f, base);
    CommonReads(ss, f, base);
    if large {
      LargeReads(b1, f, volId);
      SignedReads(PutLarge(b1, f, volId));
    } else {
      SmallReads(b1, f, volId);
      SignedReads(PutSmall(b1, f, volId));
    }
  }

  /** The part of a boot sector all sub-types share. */
  ghost predicate HasCommon(b: sector, f: Bpb) {
    && b[0] == 0xEB && b[2] == 0x90
    && LdWord(b, 11) == f.bytsPerSec && b[13] == f.secPerClus && LdWord(b, 14) == f.rsvdSecCnt && b[16] == f.numFats
    && LdWord(b, 17) == f.rootEntCnt && LdWord(b, 19) == f.totSec16 && LdDword(b, 32) == f.totSec32
  }

  lemma CommonReads(ss: nat, f: Bpb, base: nat)
    requires ss >= 512 && Storable(f)
    ensures var b := PutCounts(PutSizes(Zeros(ss), f), f, base);
            HasCommon(b, f) && LdWord(b, 22) == 0 && LdWord(b, 42) == 0
  {
    hide PutSizes, PutCounts;
    var b0 := PutSizes(Zeros(ss), f);
    var b := PutCounts(b0, f, base);
    assert b0[42] == b[42] && b0[43] == b[43];
    assert forall i :: 0 <= i < 17 ==> b[i] == b0[i];
  }

  lemma LargeReads(b: sector, f: Bpb, volId: nat)
    requires Storable(f) && HasCommon(b, f) && LdWord(b, 22) == 0 == f.fatSz16 && LdWord(b, 42) == 0
    ensures IsFatVbr(PutLarge(b, f, volId)) && Read(PutLarge(b, f, volId)) == f
  {
    hide PutLarge, LdDword;
    var r := PutLarge(b, f, volId);
    assert forall i :: 0 <= i < 36 ==> r[i] == b[i];
    assert LdDword(r, 32) == LdDword(b, 32) by { LdDwordSame(b, r, 32); }
  }

  lemma SmallReads(b: sector, f: Bpb, volId: nat)
    requires Storable(f) && HasCommon(b, f)
    ensures IsFatVbr(PutSmall(b, f, volId)) && AlikeSmall(Read(PutSmall(b, f, volId)), f)
  {
    hide PutSmall, LdDword;
    var r := PutSmall(b, f, volId);
    assert forall i :: 0 <= i < 22 ==> r[i] == b[i];
    assert LdDword(r, 32) == LdDword(b, 32) by { LdDwordSame(b, r, 32); }
  }

  lemma LdDwordSame(b: sector, r: sector, o: nat)
    requires o + 3 < |b| == |r| && forall i :: o <= i <= o + 3 ==> r[i] == b[i]
    ensures LdDword(r, o) == LdDword(b, o)
  {
  }

  lemma SignedReads(b: sector)
    ensures var r := StWord(b, 510, 0xAA55);
          && LdWord(r, 510) == 0xAA55 && Read(r) == Read(b)
          && (IsFatVbr(r) <==> IsFatVbr(b))
  {
  }

  function Ascii(s: string): seq<int> { seq(|s|, i requires 0 <= i < |s| => s[i] as int) }

  lemma StartCarries(b: sector, f: Bpb, base: nat)
    requires b == Zeros(|b|) && Storable(f) && base < 0x1_0000_0000
    ensures var r := PutCounts(PutSizes(b, f), f, base);
        && r[0] == 0xEB && r[1] == 0xFE && r[2] == 0x90 && r[3..11] == Ascii("MSDOS5.0")
        && r[21] == 0xF8 && LdWord(r, 24) == 63 && LdWord(r, 26) == 255 && LdDword(r, 28) == base
  {
    var b0 := PutSizes(b, f);
    JumpThere(b, f);
    hide PutSizes;
    CountsCarry(b0, f, base);
    hide PutCounts, LdWord, LdDword;
    var r := PutCounts(b0, f, base);
    assert forall i :: 0 <= i < 17 ==> r[i] == b0[i];
    assert r[3..11] == b0[3..11];
  }

  lemma JumpThere(b: sector, f: Bpb)
    requires b == Zeros(|b|) && Storable(f)
    ensures var r := PutSizes(b, f); r[0] == 0xEB && r[1] == 0xFE && r[2] == 0x90 && r[3..11] == Ascii("MSDOS5.0")
  {
    var r := PutSizes(b, f);
    assert forall i :: 0 <= i < 11 ==> r[i] == JUMP[i];
  }

  lemma CountsCarry(b: sector, f: Bpb, base: nat)
    requires Storable(f) && base < 0x1_0000_0000 && LdWord(b, 19) == 0 && LdWord(b, 22) == 0 && LdDword(b, 32) == 0
    ensures var r := PutCounts(b, f, base);
        r[21] == 0xF8 && LdWord(r, 24) == 63 && LdWord(r, 26) == 255 && LdDword(r, 28) == base
  {
    BytesOfDword(base);
  }

  /** What lies behind the fields: type of drive, signature, serial number, label and the name of the file system. */
  ghost predicate Named(b: sector, o: nat, volId: nat, system: string)
    requires o + 26 <= 512
  {
    && b[o] == 0x80 && b[o + 2] == 0x29 && LdDword(b, o + 3) == volId && b[o + 7..o + 18] == Ascii("NO NAME    ")
    && b[o + 18..o + 26] == Ascii(system)
  }

  lemma LabelTexts()
    ensures |LABEL| == |LABEL32| == 19
    ensures LABEL[0..11] == Ascii("NO NAME    ") && LABEL[11..19] == Ascii("FAT     ")
    ensures LABEL32[0..11] == Ascii("NO NAME    ") && LABEL32[11..19] == Ascii("FAT32   ")
  {
  }

  lemma LabelPut(b: sector, o: nat, data: seq<byte>)
    requires o + 19 <= |b| && |data| == 19
    ensures PutBytes(b, o, data)[o..o + 11] == data[0..11] && PutBytes(b, o, data)[o + 11..o + 19] == data[11..19]
  {
  }

  lemma LargeNamed(b: sector, f: Bpb, volId: nat)
    requires Storable(f) && volId < 0x1_0000_0000 && LdWord(b, 42) == 0
    ensures var r := PutLarge(b, f, volId); Named(r, 64, volId, "FAT32   ") && LdWord(r, 50) == 6
  {
    BytesOfDword(volId);
    LabelTexts();
    hide Ascii;
    var b1 := StDword(StDword(StDword(b, 67, volId), 36, f.fatSz32), 44, f.rootClus);
    var b2 := StWord(StWord(b1, 48, f.fsInfo), 50, 6)[64 := 0x80][66 := 0x29];
    assert LdDword(b2, 67) == volId;
    LabelPut(b2, 71, LABEL32);
    assert PutLarge(b, f, volId) == PutBytes(b2, 71, LABEL32);
  }

  lemma SmallNamed(b: sector, f: Bpb, volId: nat)
    requires Storable(f) && volId < 0x1_0000_0000
    ensures Named(PutSmall(b, f, volId), 36, volId, "FAT     ")
  {
    BytesOfDword(volId);
    LabelTexts();
    hide Ascii;
    var b1 := StWord(StDword(b, 39, volId), 22, f.fatSz16)[36 := 0x80][38 := 0x29];
    assert LdDword(b1, 39) == volId;
    LabelPut(b1, 43, LABEL);
    assert PutSmall(b, f, volId) == PutBytes(b1, 43, LABEL);
  }

  /** What lies before the fields of one sub-type: jump and name, media type, geometry and offset. */
  ghost predicate Started(b: sector, base: nat) {
    && b[0] == 0xEB && b[1] == 0xFE && b[2] == 0x90 && b[3..11] == Ascii("MSDOS5.0")
    && b[21] == 0xF8 && LdWord(b, 24) == 63 && LdWord(b, 26) == 255 && LdDword(b, 28) == base
  }

  /** What else a boot sector carries. */
  lemma BuiltCarries(ss: nat, f: Bpb, base: nat, large: bool, volId: nat)
    requires ss >= 512 && Storable(f) && base < 0x1_0000_0000 && volId < 0x1_0000_0000
    ensures var b := Build(ss, f, base, large, volId);
        && Started(b, base) && b[510] == 0x55 && b[511] == 0xAA
        && (if large then Named(b, 64, volId, "FAT32   ") && LdWord(b, 50) == 6 else Named(b, 36, volId, "FAT     "))
  {
    var b1 := PutCounts(PutSizes(Zeros(ss), f), f, base);
    StartCarries(Zeros(ss), f, base);
    assert Started(b1, base);
    hide PutSizes, PutCounts, Started, Named;
    if large {
      LargeNamed(b1, f, volId);
      var b2 := PutLarge(b1, f, volId);
      StartKept(b1, b2, base);
      Signed(b2, base, volId, 64, "FAT32   ");
    } else {
      SmallNamed(b1, f, volId);
      var b2 := PutSmall(b1, f, volId);
      StartKept(b1, b2, base);
      Signed(b2, base, volId, 36, "FAT     ");
    }
  }

  lemma StartKept(b: sector, r: sector, base: nat)
    requires |b| == |r| && (forall i :: 0 <= i < 22 || 24 <= i < 36 ==> r[i] == b[i]) && Started(b, base)
    ensures Started(r, base)
  {
    hide Ascii;
    assert r[3..11] == b[3..11];
  }

  lemma Signed(b: sector, base: nat, volId: nat, o: nat, system: string)
    requires o + 26 <= 510 && Started(b, base) && Named(b, o, volId, system)
    ensures var r := StWord(b, 510, 0xAA55);
        && Started(r, base) && Named(r, o, volId, system)
        && r[510] == 0x55 && r[511] == 0xAA && LdWord(r, 50) == LdWord(b, 50)
  {
    hide Ascii;
    var r := StWord(b, 510, 0xAA55);
    assert forall i :: 0 <= i < 510 ==> r[i] == b[i];
    assert r[3..11] == b[3..11] && r[o + 7..o + 18] == b[o + 7..o + 18] && r[o + 18..o + 26] == b[o + 18..o + 26];
  }
}
