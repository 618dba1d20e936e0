/** Reading and changing one FAT entry through the window (get_fat, put_fat), and clst2sect. */
module FatAccess {
  import opened Arith
  import opened Bytes
  import opened FatCodec
  import opened Layout
  import opened Disk
  import opened Window

  /** First sector of a cluster, or 0 for a cluster that does not exist (clst2sect). */
  function Clst2Sect(v: Volume, clst: nat): (s: int)
    requires Sound(v)
    ensures s == (if 2 <= clst < v.nFatent then v.database + v.csize * (clst - 2) else 0)
    ensures s == 0 <==> !(2 <= clst < v.nFatent)
    ensures s >= 0
  {
    if 2 <= clst < v.nFatent then
      ClusterInData(v, clst, ClusterSector(v, clst));
      ClusterSector(v, clst)
    else 0
  }

  /** Cluster 2 starts the data area, and every cluster starts where the one before it ends. */
  lemma ClustersInOrder(v: Volume, c: nat)
    requires Sound(v) && 2 <= c < v.nFatent
    ensures Clst2Sect(v, 2) == v.database
    ensures c + 1 < v.nFatent ==> Clst2Sect(v, c + 1) == Clst2Sect(v, c) + v.csize
  {
    assert v.csize * (c + 1 - 2) == v.csize * (c - 2) + v.csize;
    assert v.csize * (2 - 2) == 0;
  }

  /** Byte `i` of the FAT on an image. */
  function PlainByte(v: Volume, img: Image, i: nat): int
  {
    if v.fatbase + i / 512 < |img| then img[v.fatbase + i / 512][i % 512] else 0
  }

  /** Entry `c` read off an image byte by byte. */
  function PlainEntry(v: Volume, img: Image, c: nat): int
  {
    match v.fsType
    case FAT12 =>
      if c % 2 == 0 then PlainByte(v, img, 3 * (c / 2)) + 0x100 * (PlainByte(v, img, 3 * (c / 2) + 1) % 16)
      else PlainByte(v, img, 3 * (c / 2) + 1) / 16 + 0x10 * PlainByte(v, img, 3 * (c / 2) + 2)
    case FAT16 => PlainByte(v, img, 2 * c) + 0x100 * PlainByte(v, img, 2 * c + 1)
    case FAT32 =>
      PlainByte(v, img, 4 * c) + 0x100 * PlainByte(v, img, 4 * c + 1)
      + 0x1_0000 * PlainByte(v, img, 4 * c + 2) + 0x100_0000 * (PlainByte(v, img, 4 * c + 3) % 16)
  }

  ghost predicate FatHolds(v: Volume, img: Image, b: seq<Byte>)
  {
    forall i :: 0 <= i < |b| ==> b[i] == PlainByte(v, img, i)
  }

  lemma FatIsHeld(v: Volume, img: Image)
    requires v.fatbase + v.fsize <= |img|
    ensures FatHolds(v, img, FatBytes(v, img))
  {
    forall i | 0 <= i < SS * v.fsize
      ensures FatBytes(v, img)[i] == PlainByte(v, img, i)
    {
      assert FatBytes(v, img)[i] == FatByte(v, img, i);
    }
  }

  /** An entry of those bytes, off the image. */
  lemma EntryBytes(v: Volume, img: Image, b: seq<Byte>, c: nat)
    requires FatHolds(v, img, b) && Offset(v.fsType, c) + Width(v.fsType) <= |b|
    ensures Entry(v.fsType, b, c) == PlainEntry(v, img, c)
  {
    hide Entry;
    hide PlainByte;
    match v.fsType
    case FAT12 =>
      if c % 2 == 0 { EvenEntry(b, c / 2); } else { OddEntry(b, c / 2); }
    case FAT16 => EntryWord(b, c);
    case FAT32 => LowBits(b, c);
  }

  lemma EntryWord(b: seq<Byte>, c: nat)
    requires 2 * c + 2 <= |b|
    ensures Entry(FAT16, b, c) == b[2 * c] as int + 0x100 * b[2 * c + 1] as int
  {
    WideBytes(b, c);
  }

  /** What the table says of a cluster is what its bytes in the first FAT say. */
  lemma TableBytes(v: Volume, img: Image, c: nat)
    requires Fits(v, img) && c < v.nFatent
    ensures Table(v, img)[c] == PlainEntry(v, img, c)
  {
    hide Entry;
    hide PlainEntry;
    hide FatHolds;
    hide FatBytes;
    FatFits(v, img);
    EntryInFat(v, c);
    FatIsHeld(v, img);
    EntryBytes(v, img, FatBytes(v, img), c);
  }

  lemma TableEntry(v: Volume, img: Image, c: nat)
    requires Fits(v, img) && c < v.nFatent
    ensures v.fatbase + v.fsize <= |img| && Offset(v.fsType, c) + Width(v.fsType) <= SS * v.fsize
    ensures Table(v, img)[c] == Entry(v.fsType, FatBytes(v, img), c) == PlainEntry(v, img, c)
  {
    hide PlainEntry;
    FatFits(v, img);
    EntryInFat(v, c);
    TableBytes(v, img, c);
  }

  /** What is left of a value stored in an entry of each width. */
  function Masked(t: FatType, val: nat): nat
  {
    match t
    case FAT12 => val % 0x1000
    case FAT16 => val % 0x1_0000
    case FAT32 => val % 0x1000_0000
  }

  /** The image after changing byte `i` of the first FAT. */
  function PutByte(v: Volume, img: Image, i: nat, b: Byte): (r: Image)
    requires v.fatbase + v.fsize <= |img| && i < SS * v.fsize
    ensures |r| == |img|
  {
    img[v.fatbase + i / SS := img[v.fatbase + i / SS][i % SS := b]]
  }

  lemma PutByteIsUpdate(v: Volume, img: Image, i: nat, b: Byte)
    requires v.fatbase + v.fsize <= |img| && i < SS * v.fsize
    ensures FatBytes(v, PutByte(v, img, i, b)) == FatBytes(v, img)[i := b]
  {
    var r := PutByte(v, img, i, b);
    forall j | 0 <= j < SS * v.fsize
      ensures FatBytes(v, r)[j] == FatBytes(v, img)[i := b][j]
    {
      assert FatBytes(v, r)[j] == FatByte(v, r, j) && FatBytes(v, img)[j] == FatByte(v, img, j);
      if j / SS == i / SS && j % SS == i % SS {
        assert j == i;
      }
    }
  }

  /** Images that agree off the first FAT. */
  ghost predicate SameOffFat1(v: Volume, a: Image, b: Image)
  {
    |a| == |b| && forall s :: 0 <= s < |a| && !InFat1(v, s) ==> a[s] == b[s]
  }

  /** Storing an entry's bytes changes that entry of the table and nothing else in it. */
  lemma StoredTable(v: Volume, a: Image, b: Image, c: nat, val: nat)
    requires Fits(v, a) && |b| == |a| && c < v.nFatent
    requires Offset(v.fsType, c) + Width(v.fsType) <= SS * v.fsize && v.fatbase + v.fsize <= |a|
    requires FatBytes(v, b) == Store(v.fsType, FatBytes(v, a), c, val)
    ensures Table(v, b) == Table(v, a)[c := val % Modulus(v.fsType)]
    ensures forall d :: 0 <= d < v.nFatent ==> ReservedBits(v, b, d) == ReservedBits(v, a, d)
  {
    var t, x := v.fsType, FatBytes(v, a);
    StoreReadsBack(t, x, c, val);
    forall d | 0 <= d < v.nFatent
      ensures FatEntry(v, b, d) == if d == c then val % Modulus(t) else FatEntry(v, a, d)
      ensures ReservedBits(v, b, d) == ReservedBits(v, a, d)
    {
      EntryInFat(v, d);
      if d != c {
        StoreLeavesOthers(t, x, c, val, d);
      }
    }
  }

  /** Changing byte `o` of a window on sector `k` of the FAT changes that byte of the FAT. */
  method PokeWindow(fs: Fatfs, ghost k: nat, o: nat, b: Byte)
    requires fs.Valid() && k < fs.vol.fsize && o < SS && fs.winsect == fs.vol.fatbase + k
    modifies fs`wflag, fs.win
    ensures fs.Valid() && fs.wflag
    ensures fs.vol.fatbase + fs.vol.fsize <= |fs.disk.image|
    ensures SameOffFat1(fs.vol, fs.Logical(), old(fs.Logical()))
    ensures FatBytes(fs.vol, fs.Logical()) == FatBytes(fs.vol, old(fs.Logical()))[SS * k + o := b]
  {
    ghost var img := fs.Logical();
    FatFits(fs.vol, fs.disk.image);
    DivModUnique(SS * k + o, SS, k, o);
    fs.win[o] := b;
    fs.wflag := true;
    assert fs.Logical() == PutByte(fs.vol, img, SS * k + o, b);
    PutByteIsUpdate(fs.vol, img, SS * k + o, b);
  }

  /** What get_fat reports on a disk error. */
  const FAT_ERROR := 0xFFFF_FFFF

  /** The window is where it was, on a sector of the first FAT, or nowhere. */
  predicate WindowNearFat(v: Volume, before: nat, now: nat)
  {
    now == before || InFat1(v, now) || now == NO_SECTOR
  }

  /** A window on sector `k` of the first FAT shows that sector's bytes. */
  lemma WindowByte(fs: Fatfs, k: nat, o: nat)
    requires fs.Valid() && k < fs.vol.fsize && o < SS && fs.winsect == fs.vol.fatbase + k
    ensures fs.vol.fatbase + fs.vol.fsize <= |fs.disk.image|
    ensures fs.win[o] == FatBytes(fs.vol, fs.Logical())[SS * k + o]
  {
    FatFits(fs.vol, fs.disk.image);
    var img := fs.Logical();
    assert fs.win[..] == img[fs.winsect];
    DivModUnique(SS * k + o, SS, k, o);
    assert FatBytes(fs.vol, img)[SS * k + o] == FatByte(fs.vol, img, SS * k + o);
  }

  lemma WindowWord(fs: Fatfs, k: nat, o: nat)
    requires fs.Valid() && k < fs.vol.fsize && o + 1 < SS && fs.winsect == fs.vol.fatbase + k
    ensures fs.vol.fatbase + fs.vol.fsize <= |fs.disk.image|
    ensures LdWord(fs.win[..], o) == LdWord(FatBytes(fs.vol, fs.Logical()), SS * k + o)
  {
    hide FatBytes;
    hide Fatfs.Logical;
    WindowByte(fs, k, o);
    WindowByte(fs, k, o + 1);
  }

  lemma WindowDword(fs: Fatfs, k: nat, o: nat)
    requires fs.Valid() && k < fs.vol.fsize && o + 3 < SS && fs.winsect == fs.vol.fatbase + k
    ensures fs.vol.fatbase + fs.vol.fsize <= |fs.disk.image|
    ensures LdDword(fs.win[..], o) == LdDword(FatBytes(fs.vol, fs.Logical()), SS * k + o)
  {
    hide FatBytes;
    hide Fatfs.Logical;
    hide LdWord;
    WindowWord(fs, k, o);
    WindowWord(fs, k, o + 2);
  }

  /** Bring sector `k` of the first FAT into the window. */
  method MoveToFatSector(fs: Fatfs, k: nat) returns (res: FResult)
    requires fs.Valid() && k < fs.vol.fsize
    modifies fs`wflag, fs`winsect, fs.win, fs.disk
    ensures fs.Valid() && fs.Logical() == old(fs.Logical())
    ensures fs.vol.fatbase + fs.vol.fsize <= |fs.disk.image|
    ensures res == FR_OK || (res == FR_DISK_ERR && fs.disk.failed)
    ensures res == FR_OK ==> fs.winsect == fs.vol.fatbase + k && InFat1(fs.vol, fs.winsect)
    ensures WindowNearFat(fs.vol, old(fs.winsect), fs.winsect)
    ensures old(fs.disk.failed) ==> fs.disk.failed
    ensures !fs.disk.failed ==> fs.LoggedFat(old(fs.disk.log), fs.Logical())
    ensures fs.wflag ==> old(fs.wflag)
  {
    FatFits(fs.vol, fs.disk.image);
    res := MoveWindow(fs, fs.vol.fatbase + k);
  }

  /** The bytes of entry `clst` lie inside the first FAT, which lies on the drive. */
  ghost predicate EntryFits(fs: Fatfs, clst: nat)
    reads fs.disk`image
  {
    fs.vol.fatbase + fs.vol.fsize <= |fs.disk.image|
      && Offset(fs.vol.fsType, clst) + Width(fs.vol.fsType) <= SS * fs.vol.fsize
  }

  method GetFat(fs: Fatfs, clst: nat) returns (val: nat)
    requires fs.Valid()
    modifies fs`wflag, fs`winsect, fs.win, fs.disk
    ensures fs.Valid() && fs.Logical() == old(fs.Logical())
    ensures val == FAT_ERROR ==> fs.disk.failed
    ensures val != FAT_ERROR ==> val == if 2 <= clst < fs.vol.nFatent then fs.Fat()[clst] else 1
    ensures val != FAT_ERROR && 2 <= clst < fs.vol.nFatent ==> val == PlainEntry(fs.vol, fs.Logical(), clst)
    ensures WindowNearFat(fs.vol, old(fs.winsect), fs.winsect)
    ensures old(fs.disk.failed) ==> fs.disk.failed
    ensures !fs.disk.failed ==> fs.LoggedFat(old(fs.disk.log), fs.Logical())
    ensures fs.wflag ==> old(fs.wflag)
  {
    if clst < 2 || clst >= fs.vol.nFatent {
      return 1;
    }
    hide PlainEntry;
    hide Table;
    hide Fatfs.Logical;
    hide Sound;
    FatFits(fs.vol, fs.disk.image);
    EntryInFat(fs.vol, clst);
    match fs.vol.fsType
    case FAT12 => val := GetFat12(fs, clst);
    case FAT16 => val := GetFat16(fs, clst);
    case FAT32 => val := GetFat32(fs, clst);
  }

  method GetFat12(fs: Fatfs, clst: nat) returns (val: nat)
    requires fs.Valid() && fs.vol.fsType == FAT12 && clst < fs.vol.nFatent && EntryFits(fs, clst)
    modifies fs`wflag, fs`winsect, fs.win, fs.disk
    ensures fs.Valid() && fs.Logical() == old(fs.Logical())
    ensures EntryFits(fs, clst)
    ensures val == FAT_ERROR ==> fs.disk.failed
    ensures val != FAT_ERROR ==> val == fs.Fat()[clst] == PlainEntry(fs.vol, fs.Logical(), clst)
    ensures WindowNearFat(fs.vol, old(fs.winsect), fs.winsect)
    ensures old(fs.disk.failed) ==> fs.disk.failed
    ensures !fs.disk.failed ==> fs.LoggedFat(old(fs.disk.log), fs.Logical())
    ensures fs.wflag ==> old(fs.wflag)
  {
    hide FatBytes;
    hide Sound;
    hide Mirrored;
    hide Table;
    hide PlainEntry;
    hide Fatfs.Logical;
    val := FAT_ERROR;
    var bc := clst + clst / 2;
    var res := MoveToFatSector(fs, bc / SS);
    if res != FR_OK { return; }
    DivModFacts(bc, SS);
    WindowByte(fs, bc / SS, bc % SS);
    var wc: int := fs.win[bc % SS];
    bc := bc + 1;
    res := MoveToFatSector(fs, bc / SS);
    if res != FR_OK { return; }
    DivModFacts(bc, SS);
    WindowByte(fs, bc / SS, bc % SS);
    wc := wc + fs.win[bc % SS] as int * 0x100;
    val := if clst % 2 == 1 then wc / 0x10 else wc % 0x1000;
    TableEntry(fs.vol, fs.Logical(), clst);
  }

  method GetFat16(fs: Fatfs, clst: nat) returns (val: nat)
    requires fs.Valid() && fs.vol.fsType == FAT16 && clst < fs.vol.nFatent && EntryFits(fs, clst)
    modifies fs`wflag, fs`winsect, fs.win, fs.disk
    ensures fs.Valid() && fs.Logical() == old(fs.Logical())
    ensures EntryFits(fs, clst)
    ensures val == FAT_ERROR ==> fs.disk.failed
    ensures val != FAT_ERROR ==> val == fs.Fat()[clst] == PlainEntry(fs.vol, fs.Logical(), clst)
    ensures WindowNearFat(fs.vol, old(fs.winsect), fs.winsect)
    ensures old(fs.disk.failed) ==> fs.disk.failed
    ensures !fs.disk.failed ==> fs.LoggedFat(old(fs.disk.log), fs.Logical())
    ensures fs.wflag ==> old(fs.wflag)
  {
    hide FatBytes;
    hide Sound;
    hide Mirrored;
    hide Table;
    hide PlainEntry;
    hide Fatfs.Logical;
    var res := MoveToFatSector(fs, clst / (SS / 2));
    if res != FR_OK { return FAT_ERROR; }
    WordPlace(clst);
    WindowWord(fs, clst / (SS / 2), clst * 2 % SS);
    val := LdWord(fs.win[..], clst * 2 % SS);
    TableEntry(fs.vol, fs.Logical(), clst);
  }

  method GetFat32(fs: Fatfs, clst: nat) returns (val: nat)
    requires fs.Valid() && fs.vol.fsType == FAT32 && clst < fs.vol.nFatent && EntryFits(fs, clst)
    modifies fs`wflag, fs`winsect, fs.win, fs.disk
    ensures fs.Valid() && fs.Logical() == old(fs.Logical())
    ensures EntryFits(fs, clst)
    ensures val == FAT_ERROR ==> fs.disk.failed
    ensures val != FAT_ERROR ==> val == fs.Fat()[clst] == PlainEntry(fs.vol, fs.Logical(), clst)
    ensures WindowNearFat(fs.vol, old(fs.winsect), fs.winsect)
    ensures old(fs.disk.failed) ==> fs.disk.failed
    ensures !fs.disk.failed ==> fs.LoggedFat(old(fs.disk.log), fs.Logical())
    ensures fs.wflag ==> old(fs.wflag)
  {
    hide FatBytes;
    hide Sound;
    hide Mirrored;
    hide Table;
    hide PlainEntry;
    hide Fatfs.Logical;
    var res := MoveToFatSector(fs, clst / (SS / 4));
    if res != FR_OK { return FAT_ERROR; }
    DwordPlace(clst);
    WindowDword(fs, clst / (SS / 4), clst * 4 % SS);
    val := LdDword(fs.win[..], clst * 4 % SS) % 0x1000_0000;
    TableEntry(fs.vol, fs.Logical(), clst);
  }

  /** Where a 16-bit entry lies: 256 to a sector, none straddling two. */
  lemma WordPlace(c: nat)
    ensures 2 * c == SS * (c / (SS / 2)) + c * 2 % SS && c * 2 % SS + 1 < SS && 2 * c / SS == c / (SS / 2)
  {
    ItemInBlock(2, 256, c);
    DivModFacts(2 * c, 512);
  }

  /** Where a 32-bit entry lies. */
  lemma DwordPlace(c: nat)
    ensures 4 * c == SS * (c / (SS / 4)) + c * 4 % SS && c * 4 % SS + 3 < SS && 4 * c / SS == c / (SS / 4)
  {
    ItemInBlock(4, 128, c);
    DivModFacts(4 * c, 512);
  }

  /** st_word into the window. */
  method StoreWord(fs: Fatfs, ghost k: nat, o: nat, w: nat)
    requires fs.Valid() && k < fs.vol.fsize && o + 1 < SS && fs.winsect == fs.vol.fatbase + k
    modifies fs`wflag, fs.win
    ensures fs.Valid() && fs.wflag
    ensures fs.vol.fatbase + fs.vol.fsize <= |fs.disk.image|
    ensures SameOffFat1(fs.vol, fs.Logical(), old(fs.Logical()))
    ensures FatBytes(fs.vol, fs.Logical()) == StWord(FatBytes(fs.vol, old(fs.Logical())), SS * k + o, w)
  {
    hide FatBytes;
    hide Sound;
    hide Mirrored;
    hide Fatfs.Logical;
    PokeWindow(fs, k, o, w % 0x100);
    PokeWindow(fs, k, o + 1, w / 0x100 % 0x100);
  }

  /** st_dword into the window. */
  method StoreDword(fs: Fatfs, ghost k: nat, o: nat, w: nat)
    requires fs.Valid() && k < fs.vol.fsize && o + 3 < SS && fs.winsect == fs.vol.fatbase + k
    modifies fs`wflag, fs.win
    ensures fs.Valid() && fs.wflag
    ensures fs.vol.fatbase + fs.vol.fsize <= |fs.disk.image|
    ensures SameOffFat1(fs.vol, fs.Logical(), old(fs.Logical()))
    ensures FatBytes(fs.vol, fs.Logical()) == StDword(FatBytes(fs.vol, old(fs.Logical())), SS * k + o, w)
  {
    hide FatBytes;
    hide Sound;
    hide Mirrored;
    hide Fatfs.Logical;
    StoreWord(fs, k, o, w);
    StoreWord(fs, k, o + 2, w / 0x1_0000);
  }

  /** The table and its reserved bits after a store, everything off the first FAT untouched. */
  ghost predicate Stored(v: Volume, before: Image, after: Image, clst: nat, val: nat)
    requires Fits(v, before)
  {
    && Fits(v, after)
    && SameOffFat1(v, after, before)
    && clst < v.nFatent
    && Table(v, after) == Table(v, before)[clst := val % Modulus(v.fsType)]
    && forall d :: 0 <= d < v.nFatent ==> ReservedBits(v, after, d) == ReservedBits(v, before, d)
  }

  lemma StoredBytes(v: Volume, before: Image, after: Image, clst: nat, val: nat)
    requires Fits(v, before) && Stored(v, before, after, clst, val)
    ensures PlainEntry(v, after, clst) == Masked(v.fsType, val)
  {
    hide Table;
    hide PlainEntry;
    TableBytes(v, after, clst);
  }

  /** A store that failed can have changed its own entry, and that only on FAT12, where it may lie in two sectors. */
  ghost predicate Torn(v: Volume, t: seq<nat>, u: seq<nat>, c: nat)
  {
    c < |t| == |u| && u == t[c := u[c]] && (v.fsType != FAT12 ==> u == t)
  }

  /** A value whose low part is that of `val` and whose high part is that of the byte `h`, for an odd entry, */
  lemma OddMix(val: nat, h: Byte)
    ensures var x := val % 0x10 + 0x10 * h as int; x % 0x10 == val % 0x10 && x / 0x10 % 0x100 == h
  {
    DivModUnique(val % 0x10 + 0x10 * h as int, 0x10, h, val % 0x10);
  }

  /** and for an even one. */
  lemma EvenMix(val: nat, h: Byte)
    ensures var x := val % 0x100 + 0x100 * (h as int % 0x10); x % 0x100 == val % 0x100 && x / 0x100 % 0x10 == h % 0x10
  {
    DivModUnique(val % 0x100 + 0x100 * (h as int % 0x10), 0x100, h % 0x10, val % 0x100);
  }

  /** The first byte of a FAT12 store alone is a store of some other value. */
  lemma HalfStored(b: seq<Byte>, c: nat, val: nat) returns (x: nat)
    requires Offset(FAT12, c) + 2 <= |b|
    ensures b[Offset(FAT12, c) := Low12(b[Offset(FAT12, c)], c, val)] == Store(FAT12, b, c, x)
  {
    var i := Offset(FAT12, c);
    var h := b[i + 1];
    if c % 2 == 1 {
      x := val % 0x10 + 0x10 * h as int;
      OddMix(val, h);
    } else {
      x := val % 0x100 + 0x100 * (h as int % 0x10);
      EvenMix(val, h);
      DivModFacts(h, 0x10);
    }
    SameStore(b, c, val, x);
  }

  lemma SameStore(b: seq<Byte>, c: nat, val: nat, x: nat)
    requires Offset(FAT12, c) + 2 <= |b|
    requires var i := Offset(FAT12, c); Low12(b[i], c, x) == Low12(b[i], c, val) && High12(b[i + 1], c, x) == b[i + 1]
    ensures b[Offset(FAT12, c) := Low12(b[Offset(FAT12, c)], c, val)] == Store(FAT12, b, c, x)
  {
    hide Low12;
    hide High12;
  }

  method PutFat(fs: Fatfs, clst: nat, val: nat) returns (res: FResult)
    requires fs.Valid()
    modifies fs`wflag, fs`winsect, fs.win, fs.disk
    ensures fs.Valid() && SameOffFat1(fs.vol, fs.Logical(), old(fs.Logical()))
    ensures res in {FR_OK, FR_INT_ERR, FR_DISK_ERR}
    ensures res == FR_INT_ERR <==> !(2 <= clst < fs.vol.nFatent)
    ensures res == FR_INT_ERR ==> fs.Logical() == old(fs.Logical())
    ensures res == FR_DISK_ERR ==> fs.disk.failed
    ensures res == FR_DISK_ERR && fs.vol.fsType != FAT12 ==> fs.Logical() == old(fs.Logical())
    ensures res == FR_DISK_ERR ==> Torn(fs.vol, old(fs.Fat()), fs.Fat(), clst)
    ensures res == FR_OK ==> Stored(fs.vol, old(fs.Logical()), fs.Logical(), clst, val)
    ensures res == FR_OK ==> PlainEntry(fs.vol, fs.Logical(), clst) == Masked(fs.vol.fsType, val)
    ensures res == FR_OK ==> fs.wflag && InFat1(fs.vol, fs.winsect)
    ensures WindowNearFat(fs.vol, old(fs.winsect), fs.winsect)
    ensures old(fs.disk.failed) ==> fs.disk.failed
    ensures !fs.disk.failed && fs.vol.fsType != FAT12 ==> fs.LoggedFat(old(fs.disk.log), old(fs.Logical()))
  {
    hide PlainEntry;
    hide Entry;
    hide Store;
    res := FR_INT_ERR;
    if clst >= 2 && clst < fs.vol.nFatent {
      FatFits(fs.vol, fs.disk.image);
      EntryInFat(fs.vol, clst);
      ghost var before := fs.Logical();
      match fs.vol.fsType {
        case FAT12 =>
          ghost var torn;
          res, torn := PutFat12(fs, clst, val);
          if fs.Logical() != before {
            StoredTable(fs.vol, before, fs.Logical(), clst, torn);
          }
        case FAT16 => res := PutFat16(fs, clst, val);
        case FAT32 => res := PutFat32(fs, clst, val);
      }
      if res == FR_OK {
        StoredTable(fs.vol, before, fs.Logical(), clst, val);
        StoredBytes(fs.vol, before, fs.Logical(), clst, val);
      }
    }
  }

  method PutFat12(fs: Fatfs, clst: nat, val: nat) returns (res: FResult, ghost torn: nat)
    requires fs.Valid() && fs.vol.fsType == FAT12 && clst < fs.vol.nFatent && EntryFits(fs, clst)
    modifies fs`wflag, fs`winsect, fs.win, fs.disk
    ensures fs.Valid()
    ensures res == FR_OK || (res == FR_DISK_ERR && fs.disk.failed)
    ensures EntryFits(fs, clst) && SameOffFat1(fs.vol, fs.Logical(), old(fs.Logical()))
    ensures fs.Logical() == old(fs.Logical())
      || FatBytes(fs.vol, fs.Logical()) == Store(FAT12, FatBytes(fs.vol, old(fs.Logical())), clst, torn)
    ensures res == FR_OK ==>
      FatBytes(fs.vol, fs.Logical()) == Store(FAT12, FatBytes(fs.vol, old(fs.Logical())), clst, val)
    ensures res == FR_OK ==> fs.wflag && InFat1(fs.vol, fs.winsect)
    ensures WindowNearFat(fs.vol, old(fs.winsect), fs.winsect)
    ensures old(fs.disk.failed) ==> fs.disk.failed
  {
    hide FatBytes;
    hide Sound;
    hide Mirrored;
    hide Fatfs.Logical;
    ghost var before := FatBytes(fs.vol, fs.Logical());
    torn := val;
    var bc := clst + clst / 2;
    res := MoveToFatSector(fs, bc / SS);
    if res != FR_OK { return; }
    DivModFacts(bc, SS);
    WindowByte(fs, bc / SS, bc % SS);
    var b := Low12(fs.win[bc % SS], clst, val);
    PokeWindow(fs, bc / SS, bc % SS, b);
    bc := bc + 1;
    res := MoveToFatSector(fs, bc / SS);
    if res != FR_OK {
      torn := HalfStored(before, clst, val);
      return;
    }
    DivModFacts(bc, SS);
    WindowByte(fs, bc / SS, bc % SS);
    b := High12(fs.win[bc % SS], clst, val);
    PokeWindow(fs, bc / SS, bc % SS, b);
  }

  method PutFat16(fs: Fatfs, clst: nat, val: nat) returns (res: FResult)
    requires fs.Valid() && fs.vol.fsType == FAT16 && clst < fs.vol.nFatent && EntryFits(fs, clst)
    modifies fs`wflag, fs`winsect, fs.win, fs.disk
    ensures fs.Valid()
    ensures res == FR_OK || (res == FR_DISK_ERR && fs.disk.failed && fs.Logical() == old(fs.Logical()))
    ensures EntryFits(fs, clst) && SameOffFat1(fs.vol, fs.Logical(), old(fs.Logical()))
    ensures res == FR_OK ==>
      FatBytes(fs.vol, fs.Logical()) == Store(FAT16, FatBytes(fs.vol, old(fs.Logical())), clst, val)
    ensures res == FR_OK ==> fs.wflag && InFat1(fs.vol, fs.winsect)
    ensures WindowNearFat(fs.vol, old(fs.winsect), fs.winsect)
    ensures old(fs.disk.failed) ==> fs.disk.failed
    ensures !fs.disk.failed ==> fs.LoggedFat(old(fs.disk.log), old(fs.Logical()))
  {
    hide FatBytes;
    hide Sound;
    hide Mirrored;
    hide Fatfs.Logical;
    res := MoveToFatSector(fs, clst / (SS / 2));
    if res != FR_OK { return; }
    WordPlace(clst);
    StoreWord(fs, clst / (SS / 2), clst * 2 % SS, val);
  }

  method PutFat32(fs: Fatfs, clst: nat, val: nat) returns (res: FResult)
    requires fs.Valid() && fs.vol.fsType == FAT32 && clst < fs.vol.nFatent && EntryFits(fs, clst)
    modifies fs`wflag, fs`winsect, fs.win, fs.disk
    ensures fs.Valid()
    ensures res == FR_OK || (res == FR_DISK_ERR && fs.disk.failed && fs.Logical() == old(fs.Logical()))
    ensures EntryFits(fs, clst) && SameOffFat1(fs.vol, fs.Logical(), old(fs.Logical()))
    ensures res == FR_OK ==>
      FatBytes(fs.vol, fs.Logical()) == Store(FAT32, FatBytes(fs.vol, old(fs.Logical())), clst, val)
    ensures res == FR_OK ==> fs.wflag && InFat1(fs.vol, fs.winsect)
    ensures WindowNearFat(fs.vol, old(fs.winsect), fs.winsect)
    ensures old(fs.disk.failed) ==> fs.disk.failed
    ensures !fs.disk.failed ==> fs.LoggedFat(old(fs.disk.log), old(fs.Logical()))
  {
    hide FatBytes;
    hide Sound;
    hide Mirrored;
    hide Fatfs.Logical;
    res := MoveToFatSector(fs, clst / (SS / 4));
    if res != FR_OK { return; }
    DwordPlace(clst);
    WindowDword(fs, clst / (SS / 4), clst * 4 % SS);
    var merged := val % 0x1000_0000 + LdDword(fs.win[..], clst * 4 % SS) / 0x1000_0000 * 0x1000_0000;
    StoreDword(fs, clst / (SS / 4), clst * 4 % SS, merged);
  }
}
