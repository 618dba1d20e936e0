/** The 32-byte short-name directory entry: its allocation fields, and what f_sync stores in it. */
module DirEntry {
  import opened Bytes
  import opened FatCodec

  const DIR_ATTR := 11
  const DIR_LST_ACC_DATE := 18
  const DIR_FST_CLUS_HI := 20
  const DIR_MOD_TIME := 22
  const DIR_FST_CLUS_LO := 26
  const DIR_FILE_SIZE := 28
  const SZDIRE := 32

  /** GET_FATTIME() without a clock: 1 January 2018. */
  const FATTIME := (2018 - 1980) * 0x200_0000 + 1 * 0x20_0000 + 1 * 0x1_0000

  /** `attr | AM_ARC`. */
  function Archived(a: Byte): (r: Byte)
    ensures r / 0x20 % 2 == 1 && r % 0x20 == a % 0x20 && r / 0x40 == a / 0x40
  {
    if a / 0x20 % 2 == 1 then a else a + 0x20
  }

  /** The start cluster an entry names (ld_clust). */
  function LdClust(t: FatType, s: Sector, o: nat): (c: nat)
    requires o + SZDIRE <= SS
  {
    LdWord(s, o + DIR_FST_CLUS_LO) + if t == FAT32 then 0x1_0000 * LdWord(s, o + DIR_FST_CLUS_HI) else 0
  }

  function StClust(t: FatType, s: Sector, o: nat, cl: nat): (r: Sector)
    requires o + SZDIRE <= SS
  {
    var r := StWord(s, o + DIR_FST_CLUS_LO, cl);
    if t == FAT32 then StWord(r, o + DIR_FST_CLUS_HI, cl / 0x1_0000) else r
  }

  function LdSize(s: Sector, o: nat): nat
    requires o + SZDIRE <= SS
  {
    LdDword(s, o + DIR_FILE_SIZE)
  }

  /** The directory sector after f_sync has updated the entry at `o`. */
  function SyncedEntry(t: FatType, s: Sector, o: nat, start: nat, size: nat): (r: Sector)
    requires o + SZDIRE <= SS
  {
    var a: Sector := s[o + DIR_ATTR := Archived(s[o + DIR_ATTR])];
    var b := StClust(t, a, o, start);
    var c := StDword(b, o + DIR_FILE_SIZE, size);
    var d := StDword(c, o + DIR_MOD_TIME, FATTIME);
    StWord(d, o + DIR_LST_ACC_DATE, 0)
  }

  lemma WordKept(a: seq<Byte>, b: seq<Byte>, i: nat)
    requires i + 2 <= |a| == |b| && a[i] == b[i] && a[i + 1] == b[i + 1]
    ensures LdWord(a, i) == LdWord(b, i)
  {
  }

  lemma DwordKept(a: seq<Byte>, b: seq<Byte>, i: nat)
    requires i + 4 <= |a| == |b| && forall k :: i <= k < i + 4 ==> a[k] == b[k]
    ensures LdDword(a, i) == LdDword(b, i)
  {
    hide LdWord;
    WordKept(a, b, i);
    WordKept(a, b, i + 2);
  }

  /** A stored start cluster reads back, and the other bytes stay. */
  lemma ClustReadsBack(t: FatType, s: Sector, o: nat, cl: nat)
    requires o + SZDIRE <= SS && cl < Modulus(t)
    ensures LdClust(t, StClust(t, s, o, cl), o) == cl
    ensures var (hi, lo) := (o + DIR_FST_CLUS_HI, o + DIR_FST_CLUS_LO);
            forall k :: 0 <= k < SS && !(hi <= k < hi + 2 || lo <= k < lo + 2) ==> StClust(t, s, o, cl)[k] == s[k]
  {
    hide LdWord;
    hide StWord;
    var r := StWord(s, o + DIR_FST_CLUS_LO, cl);
    if t == FAT32 {
      WordKept(r, StWord(r, o + DIR_FST_CLUS_HI, cl / 0x1_0000), o + DIR_FST_CLUS_LO);
    }
  }

  /** Storing size, time and access date keeps the rest of the sector. */
  lemma TailStores(t: FatType, b: Sector, o: nat, size: nat)
    requires o + SZDIRE <= SS && size < TWO32
    ensures var r := StWord(StDword(StDword(b, o + DIR_FILE_SIZE, size), o + DIR_MOD_TIME, FATTIME),
        o + DIR_LST_ACC_DATE, 0);
            && LdSize(r, o) == size && LdDword(r, o + DIR_MOD_TIME) == FATTIME && LdWord(r, o + DIR_LST_ACC_DATE) == 0
            && LdClust(t, r, o) == LdClust(t, b, o)
            && (forall k :: 0 <= k < SS && !(o + DIR_LST_ACC_DATE <= k < o + SZDIRE) ==> r[k] == b[k])
  {
    hide LdWord;
    hide LdDword;
    hide StWord;
    hide StDword;
    var c := StDword(b, o + DIR_FILE_SIZE, size);
    var d := StDword(c, o + DIR_MOD_TIME, FATTIME);
    var r := StWord(d, o + DIR_LST_ACC_DATE, 0);
    DwordKept(c, r, o + DIR_FILE_SIZE);
    DwordKept(d, r, o + DIR_MOD_TIME);
    WordKept(b, r, o + DIR_FST_CLUS_LO);
    WordKept(b, r, o + DIR_FST_CLUS_HI);
  }

  /** The stored entry decodes to the start cluster and size; the rest of the sector, the name included, is
      untouched. */
  lemma SyncedEntryDecodes(t: FatType, s: Sector, o: nat, start: nat, size: nat)
    requires o + SZDIRE <= SS && start < Modulus(t) && size < TWO32
    ensures LdClust(t, SyncedEntry(t, s, o, start, size), o) == start
    ensures LdSize(SyncedEntry(t, s, o, start, size), o) == size
    ensures LdDword(SyncedEntry(t, s, o, start, size), o + DIR_MOD_TIME) == FATTIME
    ensures LdWord(SyncedEntry(t, s, o, start, size), o + DIR_LST_ACC_DATE) == 0
    ensures SyncedEntry(t, s, o, start, size)[o + DIR_ATTR] == Archived(s[o + DIR_ATTR])
    ensures forall k :: 0 <= k < SS && !(o + DIR_ATTR <= k < o + SZDIRE) ==>
      SyncedEntry(t, s, o, start, size)[k] == s[k]
    ensures forall k :: o + DIR_ATTR < k < o + DIR_LST_ACC_DATE ==> SyncedEntry(t, s, o, start, size)[k] == s[k]
  {
    hide Archived;
    hide LdWord;
    hide LdDword;
    hide StWord;
    hide StDword;
    hide LdClust;
    hide LdSize;
    hide StClust;
    var a: Sector := s[o + DIR_ATTR := Archived(s[o + DIR_ATTR])];
    ClustReadsBack(t, a, o, start);
    TailStores(t, StClust(t, a, o, start), o, size);
  }

  /** The entry at `o` says where the file starts and how long it is: bytes 26 and 27, on FAT32 20 and 21 above them,
      and 28 to 31. */
  predicate EntryNames(t: FatType, s: seq<Byte>, o: nat, start: int, size: int)
    requires o + 32 <= |s|
  {
    && start == s[o + 26] as int + 0x100 * s[o + 27] as int
         + (if t == FAT32 then 0x1_0000 * s[o + 20] as int + 0x100_0000 * s[o + 21] as int else 0)
    && size == s[o + 28] as int + 0x100 * s[o + 29] as int + 0x1_0000 * s[o + 30] as int + 0x100_0000 * s[o + 31] as int
  }

  /** It is marked for archiving, modified on 1 January 2018 at midnight, and carries no access date. */
  predicate EntryStamped(s: seq<Byte>, o: nat)
    requires o + 32 <= |s|
  {
    && s[o + 11] / 0x20 % 2 == 1
    && s[o + 22] == 0 && s[o + 23] == 0 && s[o + 24] == 0x21 && s[o + 25] == 0x4C
    && s[o + 18] == 0 && s[o + 19] == 0
  }

  lemma FieldBytes(t: FatType, s: Sector, o: nat)
    requires o + 32 <= 512
    ensures EntryNames(t, s, o, LdClust(t, s, o), LdSize(s, o))
  {
  }

  /** Every byte of the sector after f_sync has updated the entry at `o`. */
  lemma SyncedBytes(t: FatType, s: Sector, o: nat, start: nat, size: nat)
    requires o + 32 <= 512 && start < Modulus(t) && size < TWO32
    ensures var r := SyncedEntry(t, s, o, start, size);
            && EntryNames(t, r, o, start, size) && EntryStamped(r, o)
            && r[o + 11] == (if s[o + 11] / 0x20 % 2 == 1 then s[o + 11] else s[o + 11] + 0x20)
            && (t != FAT32 ==> r[o + 20] == s[o + 20] && r[o + 21] == s[o + 21])
            && (forall k :: 0 <= k < 512 && k != o + 11 && !(o + 18 <= k < o + 32) ==> r[k] == s[k])
  {
    hide SyncedEntry;
    hide LdClust;
    hide LdSize;
    hide EntryNames;
    SyncedEntryDecodes(t, s, o, start, size);
    FieldBytes(t, SyncedEntry(t, s, o, start, size), o);
    if t != FAT32 {
      HighWordKept(t, s, o, start, size);
    }
    StampBytes(SyncedEntry(t, s, o, start, size), o);
  }

  lemma HighWordKept(t: FatType, s: Sector, o: nat, start: nat, size: nat)
    requires o + 32 <= 512 && t != FAT32
    ensures var r := SyncedEntry(t, s, o, start, size); r[o + 20] == s[o + 20] && r[o + 21] == s[o + 21]
  {
    hide StWord;
    hide StDword;
    hide LdWord;
    hide LdDword;
  }

  lemma StampBytes(s: Sector, o: nat)
    requires o + 32 <= 512 && LdDword(s, o + DIR_MOD_TIME) == FATTIME && LdWord(s, o + DIR_LST_ACC_DATE) == 0
    ensures s[o + 22] == 0 && s[o + 23] == 0 && s[o + 24] == 0x21 && s[o + 25] == 0x4C
    ensures s[o + 18] == 0 && s[o + 19] == 0
  {
  }

  /** st_word into a byte buffer. */
  method PutWord(a: array<Byte>, o: nat, w: nat)
    requires o + 2 <= a.Length
    modifies a
    ensures a[..] == StWord(old(a[..]), o, w)
  {
    a[o] := w % 0x100;
    a[o + 1] := w / 0x100 % 0x100;
  }

  /** st_dword into a byte buffer. */
  method PutDword(a: array<Byte>, o: nat, w: nat)
    requires o + 4 <= a.Length
    modifies a
    ensures a[..] == StDword(old(a[..]), o, w)
  {
    PutWord(a, o, w);
    PutWord(a, o + 2, w / 0x1_0000);
  }

  /** The update of the directory entry in f_sync, in place in the window. */
  method PutEntry(t: FatType, a: array<Byte>, o: nat, start: nat, size: nat)
    requires a.Length == SS && o + SZDIRE <= SS
    modifies a
    ensures a[..] == SyncedEntry(t, old(a[..]), o, start, size)
  {
    a[o + DIR_ATTR] := Archived(a[o + DIR_ATTR]);
    PutWord(a, o + DIR_FST_CLUS_LO, start);
    if t == FAT32 {
      PutWord(a, o + DIR_FST_CLUS_HI, start / 0x1_0000);
    }
    PutDword(a, o + DIR_FILE_SIZE, size);
    PutDword(a, o + DIR_MOD_TIME, FATTIME);
    PutWord(a, o + DIR_LST_ACC_DATE, 0);
  }

  /** The FSInfo sector sync_fs builds. */
  function InfoSector(free: nat, last: nat): (s: Sector)
  {
    var a := StWord(seq(SS, _ => 0), 510, 0xAA55);
    var b := StDword(a, 0, 0x4161_5252);
    var c := StDword(b, 484, 0x6141_7272);
    StDword(StDword(c, 488, free), 492, last)
  }

  /** It carries the signatures, the free-cluster count and the last cluster allocated. */
  lemma InfoSectorDecodes(free: nat, last: nat)
    requires free < TWO32 && last < TWO32
    ensures LdDword(InfoSector(free, last), 488) == free && LdDword(InfoSector(free, last), 492) == last
    ensures LdDword(InfoSector(free, last), 0) == 0x4161_5252 && LdDword(InfoSector(free, last), 484) == 0x6141_7272
    ensures LdWord(InfoSector(free, last), 510) == 0xAA55
  {
  }

  method PutInfo(a: array<Byte>, free: nat, last: nat)
    requires a.Length == SS
    modifies a
    ensures a[..] == InfoSector(free, last)
  {
    for i := 0 to SS
      invariant forall k :: 0 <= k < i ==> a[k] == 0
    {
      a[i] := 0;
    }
    assert a[..] == seq(SS, _ => 0);
    PutWord(a, 510, 0xAA55);
    PutDword(a, 0, 0x4161_5252);
    PutDword(a, 484, 0x6141_7272);
    PutDword(a, 488, free);
    PutDword(a, 492, last);
  }
}
