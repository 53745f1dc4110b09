/** The FSINFO sector of FAT32 volumes, which carries the allocation hints from one mount to the next (ff.c sync_fs,
    find_volume). */
module FsInfo {
  import opened Bytes

  const BS_55AA := 510
  const FSI_LEAD_SIG := 0
  const FSI_STRUC_SIG := 484
  const FSI_FREE_COUNT := 488
  const FSI_NXT_FREE := 492

  datatype Hints = NoHints | Hints(free: nat, last: nat)

  /** The sector sync_fs builds. */
  function Build(ss: nat, free: nat, last: nat): (r: seq<byte>)
    requires ss >= 512
    ensures |r| == ss
  {
    var blank: seq<byte> := seq(ss, _ => 0);
    var signed := StDword(StDword(StWord(blank, BS_55AA, 0xAA55), FSI_LEAD_SIG, 0x41615252), FSI_STRUC_SIG, 0x61417272);
    StDword(StDword(signed, FSI_FREE_COUNT, free), FSI_NXT_FREE, last)
  }

  /** What the mount code takes from such a sector. */
  function Read(sector: seq<byte>): Hints
    requires |sector| >= 512
  {
    if LdWord(sector, BS_55AA) == 0xAA55 && LdDword(sector, FSI_LEAD_SIG) == 0x41615252
       && LdDword(sector, FSI_STRUC_SIG) == 0x61417272
    then Hints(LdDword(sector, FSI_FREE_COUNT), LdDword(sector, FSI_NXT_FREE))
    else NoHints
  }

  /** The hints survive being written and mounted again. */
  lemma HintsRoundTrip(ss: nat, free: nat, last: nat)
    requires ss >= 512 && free < 0x1_0000_0000 && last < 0x1_0000_0000
    ensures Read(Build(ss, free, last)) == Hints(free, last)
  {
    var blank: seq<byte> := seq(ss, _ => 0);
    var a := StWord(blank, BS_55AA, 0xAA55);
    var b := StDword(a, FSI_LEAD_SIG, 0x41615252);
    var c := StDword(b, FSI_STRUC_SIG, 0x61417272);
    var d := StDword(c, FSI_FREE_COUNT, free);
    StoredWord(blank, BS_55AA, 0xAA55);
    StoredDword(a, FSI_LEAD_SIG, 0x41615252);
    StoredDword(b, FSI_STRUC_SIG, 0x61417272);
    StoredDword(c, FSI_FREE_COUNT, free);
    StoredDword(d, FSI_NXT_FREE, last);
  }

  /** The fields lie where the FAT specification has them (section "FAT32 FSInfo
      Sector Structure and Backup Boot Sector"). */
  lemma FieldsInPlace(ss: nat, free: nat, last: nat)
    requires ss >= 512 && free < 0x1_0000_0000 && last < 0x1_0000_0000
    ensures var r := Build(ss, free, last);
            && LdDword(r, 0) == 0x41615252 && LdDword(r, 484) == 0x61417272 && LdWord(r, 510) == 0xAA55
            && r[488] as int + 0x100 * r[489] as int + 0x1_0000 * r[490] as int + 0x100_0000 * r[491] as int == free
            && r[492] as int + 0x100 * r[493] as int + 0x1_0000 * r[494] as int + 0x100_0000 * r[495] as int == last
  {
    BytesOfDword(free);
    BytesOfDword(last);
  }

  /** Between the lead signature and the other fields the sector is blank. */
  lemma BlankBetween(ss: nat, free: nat, last: nat, j: nat)
    requires ss >= 512 && free < 0x1_0000_0000 && last < 0x1_0000_0000 && 4 <= j && j + 3 < FSI_STRUC_SIG
    ensures LdDword(Build(ss, free, last), j) == 0
  {
    var blank: seq<byte> := seq(ss, _ => 0);
    var a := StWord(blank, BS_55AA, 0xAA55);
    var b := StDword(a, FSI_LEAD_SIG, 0x41615252);
    var c := StDword(b, FSI_STRUC_SIG, 0x61417272);
    var d := StDword(c, FSI_FREE_COUNT, free);
    StoredWord(blank, BS_55AA, 0xAA55);
    StoredDword(a, FSI_LEAD_SIG, 0x41615252);
    StoredDword(b, FSI_STRUC_SIG, 0x61417272);
    StoredDword(c, FSI_FREE_COUNT, free);
    StoredDword(d, FSI_NXT_FREE, last);
  }
}
