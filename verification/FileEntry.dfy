/** The directory entry of a file: where its first cluster and its size are recorded, and what f_sync
    makes of it (ld_clust, st_clust and f_sync of ff.c). */
module FileEntry {
  import opened Bytes
  import opened FatEntries
  import opened LfnEntries

  const DIR_ATTR := 11
  const DIR_LST_ACC_DATE := 18
  const DIR_FST_CLUS_HI := 20
  const DIR_MOD_TIME := 22
  const DIR_FST_CLUS_LO := 26
  const DIR_FILE_SIZE := 28
  const AM_ARC := 0x20

  /** ld_clust: the first cluster; its upper half is used on FAT32 alone. */
  function Clust(t: FatType, e: Entry): nat {
    LdWord(e, DIR_FST_CLUS_LO) + if t == Fat32 then 0x1_0000 * LdWord(e, DIR_FST_CLUS_HI) else 0
  }

  function Size(e: Entry): nat { LdDword(e, DIR_FILE_SIZE) }

  /** st_clust. */
  function WithClust(t: FatType, e: Entry, c: nat): Entry {
    var low := StWord(e, DIR_FST_CLUS_LO, c % 0x1_0000);
    if t == Fat32 then StWord(low, DIR_FST_CLUS_HI, c / 0x1_0000 % 0x1_0000) else low
  }

  /** The entry as f_sync stores it: archive bit, first cluster, size, and time of change. */
  function Updated(t: FatType, e: Entry, c: nat, size: nat, tm: nat): Entry {
    var a := e[DIR_ATTR := if e[DIR_ATTR] / AM_ARC % 2 == 1 then e[DIR_ATTR] else e[DIR_ATTR] + AM_ARC];
    var b := StDword(WithClust(t, a, c), DIR_FILE_SIZE, size);
    StWord(StDword(b, DIR_MOD_TIME, tm), DIR_LST_ACC_DATE, 0)
  }

  /** Cluster and size read back; the name, the other attributes and what else the entry
      holds stay. */
  lemma UpdatedReads(t: FatType, e: Entry, c: nat, size: nat, tm: nat)
    requires c < 0x1_0000_0000 && (t != Fat32 ==> c < 0x1_0000) && size < 0x1_0000_0000 && tm < 0x1_0000_0000
    ensures var r := Updated(t, e, c, size, tm);
            && Clust(t, r) == c && Size(r) == size && LdDword(r, 22) == tm
            && r[26] as int + 0x100 * r[27] as int == c % 0x1_0000
            && (t == Fat32 ==> r[20] as int + 0x100 * r[21] as int == c / 0x1_0000)
            && r[28] as int + 0x100 * r[29] as int + 0x1_0000 * r[30] as int + 0x100_0000 * r[31] as int == size
            && r[..11] == e[..11] && r[12..18] == e[12..18]
            && r[11] / 32 % 2 == 1 && r[11] % 32 == e[11] % 32 && r[11] / 64 == e[11] / 64
  {
    hide Updated;
    UpdatedNumbers(t, e, c, size, tm);
    UpdatedRest(t, e, c, size, tm);
    ArchiveBit(e[11]);
  }

  lemma UpdatedNumbers(t: FatType, e: Entry, c: nat, size: nat, tm: nat)
    requires c < 0x1_0000_0000 && (t != Fat32 ==> c < 0x1_0000) && size < 0x1_0000_0000 && tm < 0x1_0000_0000
    ensures var r := Updated(t, e, c, size, tm);
            && Clust(t, r) == c && Size(r) == size && LdDword(r, 22) == tm && LdWord(r, 26) == c % 0x1_0000
            && (t == Fat32 ==> LdWord(r, 20) == c / 0x1_0000)
  {
    hide StWord, StDword, LdWord, LdDword;
    ArchiveBit(e[DIR_ATTR]);
    var a := e[DIR_ATTR := if e[DIR_ATTR] / AM_ARC % 2 == 1 then e[DIR_ATTR] else e[DIR_ATTR] + AM_ARC];
    var low := StWord(a, DIR_FST_CLUS_LO, c % 0x1_0000);
    StoredWord(a, DIR_FST_CLUS_LO, c % 0x1_0000);
    StoredWord(low, DIR_FST_CLUS_HI, c / 0x1_0000 % 0x1_0000);
    var b := WithClust(t, a, c);
    StoredDword(b, DIR_FILE_SIZE, size);
    var d := StDword(b, DIR_FILE_SIZE, size);
    StoredDword(d, DIR_MOD_TIME, tm);
    StoredWord(StDword(d, DIR_MOD_TIME, tm), DIR_LST_ACC_DATE, 0);
  }

  /** The bytes no number is stored in. */
  lemma UpdatedRest(t: FatType, e: Entry, c: nat, size: nat, tm: nat)
    ensures var r := Updated(t, e, c, size, tm);
            && r[..11] == e[..11] && r[12..18] == e[12..18]
            && r[11] == if e[11] / AM_ARC % 2 == 1 then e[11] else e[11] + AM_ARC
  {
    hide Byte;
    ArchiveBit(e[11]);
  }

  lemma ArchiveBit(a: byte)
    ensures a / AM_ARC % 2 != 1 ==> a + AM_ARC < 256
    ensures var r := if a / AM_ARC % 2 == 1 then a else a + AM_ARC;
            r / 32 % 2 == 1 && r % 32 == a % 32 && r / 64 == a / 64
  {
  }
}
