/** f_getfree: the cached free-cluster count, or a scan of the FAT that refreshes it. */
module FreeCount {
  import opened Arith
  import opened Bytes
  import opened FatCodec
  import opened Layout
  import opened Disk
  import opened Window
  import opened FatAccess
  import opened Chains
  import opened Alloc

  /** Free clusters among entries lo..hi. */
  function ZerosIn(t: seq<nat>, lo: nat, hi: nat): (z: nat)
    requires lo <= hi <= |t|
    ensures z <= hi - lo
  {
    if lo == hi then 0 else ZerosIn(t, lo, hi - 1) + if t[hi - 1] == 0 then 1 else 0
  }

  lemma ZerosInStep(t: seq<nat>, lo: nat, hi: nat)
    requires lo <= hi < |t|
    ensures ZerosIn(t, lo, lo) == 0
    ensures ZerosIn(t, lo, hi + 1) == ZerosIn(t, lo, hi) + if t[hi] == 0 then 1 else 0
  {
  }

  lemma {:induction false} ZerosSplit(t: seq<nat>, lo: nat, hi: nat)
    requires lo <= hi <= |t|
    ensures Zeros(t, lo) == ZerosIn(t, lo, hi) + Zeros(t, hi)
    decreases hi - lo
  {
    if lo < hi {
      ZerosSplit(t, lo, hi - 1);
    }
  }

  /** The FAT12 scan: one get_fat per cluster. It stops before entry `k`. */
  method CountEntries(fs: Fatfs) returns (res: FResult, nfree: nat, ghost k: nat)
    requires fs.Valid()
    modifies fs`wflag, fs`winsect, fs.win, fs.disk
    ensures FatOnly(fs, old(fs.Logical()), old(fs.winsect), old(fs.disk.failed)) && fs.Logical() == old(fs.Logical())
    ensures res in {FR_OK, FR_INT_ERR, FR_DISK_ERR} && (res == FR_DISK_ERR ==> fs.disk.failed)
    ensures 2 <= k <= fs.vol.nFatent && nfree == ZerosIn(fs.Fat(), 2, k)
    ensures res == FR_OK <==> k == fs.vol.nFatent
    ensures res == FR_OK ==> !HasOne(fs.Fat())
    ensures res == FR_INT_ERR ==> FirstOne(fs.Fat(), k)
    ensures fs.wflag ==> old(fs.wflag)
  {
    hide Fatfs.Logical;
    hide Table;
    hide Mirrored;
    hide Sound;
    VolumeBounds(fs.vol);
    ghost var t := fs.Fat();
    res, nfree := FR_OK, 0;
    var clst := 2;
    while true
      invariant FatOnly(fs, old(fs.Logical()), old(fs.winsect), old(fs.disk.failed))
      invariant fs.Logical() == old(fs.Logical())
      invariant 2 <= clst < fs.vol.nFatent && nfree == ZerosIn(t, 2, clst) && res == FR_OK
      invariant forall c :: 2 <= c < clst ==> t[c] != 1
      invariant fs.wflag ==> old(fs.wflag)
      decreases fs.vol.nFatent - clst
    {
      var stat := GetFat(fs, clst);
      assert fs.Fat() == t;
      k := clst;
      if stat == FAT_ERROR { res := FR_DISK_ERR; break; }
      if stat == 1 { res := FR_INT_ERR; break; }
      if stat == 0 { nfree := nfree + 1; }
      clst := clst + 1;
      k := clst;
      if !(clst < fs.vol.nFatent) { break; }
    }
  }

  /** Entry `k` is the first data entry holding the reserved value 1. */
  ghost predicate FirstOne(t: seq<nat>, k: nat)
  {
    2 <= k < |t| && t[k] == 1 && forall c :: 2 <= c < k ==> t[c] != 1
  }

  /** Entry `c` as the scan reads it, at offset `i` of a window on sector `k` of the FAT. */
  lemma WordAtWindow(fs: Fatfs, k: nat, i: nat, c: nat)
    requires fs.Valid() && k < fs.vol.fsize && fs.winsect == fs.vol.fatbase + k && c < fs.vol.nFatent
    requires fs.vol.fsType != FAT12 && SS * k + i == Offset(fs.vol.fsType, c) && i + Width(fs.vol.fsType) <= SS
    ensures fs.Fat()[c] == if fs.vol.fsType == FAT16 then LdWord(fs.win[..], i)
      else LdDword(fs.win[..], i) % 0x1000_0000
  {
    hide Sound;
    hide Mirrored;
    hide Fatfs.Logical;
    hide FatBytes;
    hide LdWord;
    hide LdDword;
    EntryInFat(fs.vol, c);
    if fs.vol.fsType == FAT16 {
      WindowWord(fs, k, i);
    } else {
      WindowDword(fs, k, i);
    }
  }

  /** Where the scan stands before entry `c`: at offset `i`, with `sect` the next sector to load. */
  predicate ScanAt(v: Volume, c: int, sect: int, i: int)
  {
    && c >= 0
    && i == Offset(v.fsType, c) % SS
    && sect == v.fatbase + Offset(v.fsType, c) / SS + if i == 0 then 0 else 1
  }

  /** Entries of FAT16 and FAT32 do not straddle sectors. */
  lemma NoStraddle(t: FatType, c: nat)
    requires t != FAT12
    ensures Offset(t, c) % SS + Width(t) <= SS
  {
    if t == FAT16 {
      ItemInBlock(2, 256, c);
    } else {
      ItemInBlock(4, 128, c);
    }
  }

  /** One step of the scan: the sector of entry `c` is loaded, and `i` moves past the entry. */
  lemma ScanStep(v: Volume, c: nat, sect: int, i: int)
    requires Sound(v) && v.fsType != FAT12 && c < v.nFatent && ScanAt(v, c, sect, i)
    ensures var k := Offset(v.fsType, c) / SS;
            && 0 <= i && i + Width(v.fsType) <= SS && k < v.fsize
            && SS * k + i == Offset(v.fsType, c)
            && sect == v.fatbase + k + (if i == 0 then 0 else 1)
            && ScanAt(v, c + 1, v.fatbase + k + 1, (i + Width(v.fsType)) % SS)
  {
    hide Sound;
    EntryInFat(v, c);
    NoStraddle(v.fsType, c);
    var x, w := Offset(v.fsType, c), Width(v.fsType);
    DivModFacts(x, SS);
    assert Offset(v.fsType, c + 1) == x + w;
    hide Offset;
    hide Width;
    if i + w < SS {
      DivModUnique(x + w, SS, x / SS, i + w);
    } else {
      DivModUnique(x + w, SS, x / SS + 1, 0);
    }
  }

  lemma ScanStart(v: Volume)
    ensures ScanAt(v, 0, v.fatbase, 0)
  {
  }

  /** The FAT16/FAT32 scan: sector by sector over the window, entries 0 and 1 included. It stops before entry `k`. */
  method CountWords(fs: Fatfs) returns (res: FResult, nfree: nat, ghost k: nat)
    requires fs.Valid() && fs.vol.fsType != FAT12
    modifies fs`wflag, fs`winsect, fs.win, fs.disk
    ensures FatOnly(fs, old(fs.Logical()), old(fs.winsect), old(fs.disk.failed)) && fs.Logical() == old(fs.Logical())
    ensures res == FR_OK || (res == FR_DISK_ERR && fs.disk.failed)
    ensures k <= fs.vol.nFatent && nfree == ZerosIn(fs.Fat(), 0, k)
    ensures res == FR_OK <==> k == fs.vol.nFatent
    ensures fs.wflag ==> old(fs.wflag)
  {
    hide Fatfs.Logical;
    hide Table;
    hide Mirrored;
    hide Sound;
    hide ZerosIn;
    hide Zeros;
    hide ScanAt;
    hide Offset;
    hide Width;
    VolumeBounds(fs.vol);
    ScanStart(fs.vol);
    ghost var t := fs.Fat();
    ZerosInStep(t, 0, 0);
    var clst, sect, i := fs.vol.nFatent, fs.vol.fatbase, 0;
    res, nfree := FR_OK, 0;
    while true
      invariant FatOnly(fs, old(fs.Logical()), old(fs.winsect), old(fs.disk.failed))
      invariant fs.Logical() == old(fs.Logical())
      invariant 0 < clst <= fs.vol.nFatent && nfree == ZerosIn(t, 0, fs.vol.nFatent - clst) && res == FR_OK
      invariant ScanAt(fs.vol, fs.vol.nFatent - clst, sect, i)
      invariant i != 0 ==> fs.winsect == sect - 1
      invariant fs.wflag ==> old(fs.wflag)
      decreases clst
    {
      ghost var c := fs.vol.nFatent - clst;
      k := c;
      ScanStep(fs.vol, c, sect, i);
      if i == 0 {
        res := MoveToFatSector(fs, sect - fs.vol.fatbase);
        sect := sect + 1;
        if res != FR_OK { break; }
      }
      var zero := EntryIsZero(fs, Offset(fs.vol.fsType, c) / SS, i, c);
      if zero { nfree := nfree + 1; }
      ZerosInStep(t, 0, c);
      i := (i + Width(fs.vol.fsType)) % SS;
      clst := clst - 1;
      k := c + 1;
      if clst == 0 { break; }
    }
  }

  /** Whether the entry at offset `i` of the window is free. */
  method EntryIsZero(fs: Fatfs, ghost k: nat, i: nat, ghost c: nat) returns (zero: bool)
    requires fs.Valid() && k < fs.vol.fsize && fs.winsect == fs.vol.fatbase + k && c < fs.vol.nFatent
    requires fs.vol.fsType != FAT12 && SS * k + i == Offset(fs.vol.fsType, c) && i + Width(fs.vol.fsType) <= SS
    ensures zero <==> fs.Fat()[c] == 0
  {
    WordAtWindow(fs, k, i, c);
    if fs.vol.fsType == FAT16 {
      zero := LdWord(fs.win[..], i) == 0;
    } else {
      zero := LdDword(fs.win[..], i) % 0x1000_0000 == 0;
    }
  }

  /** The two leading entries of a FAT16 or FAT32, which hold no cluster, do not look free. */
  ghost predicate Led(v: Volume, t: seq<nat>)
    requires |t| >= 2
  {
    v.fsType == FAT12 || (t[0] != 0 && t[1] != 0)
  }

  /** The first entry f_getfree scans. */
  function ScanFrom(v: Volume): nat
  {
    if v.fsType == FAT12 then 2 else 0
  }

  /** The count of a scan from `lo` that stopped before `k` is the number of free clusters exactly when the leading
      entries it took for free are as many as the free clusters it did not reach. */
  lemma StoppedScan(t: seq<nat>, lo: nat, k: nat)
    requires 2 <= |t| && (lo == 0 || lo == 2) && lo <= k <= |t|
    ensures ZerosIn(t, lo, k) == Zeros(t, 2) <==>
      Zeros(t, if k < 2 then 2 else k) == ZerosIn(t, lo, if k < 2 then k else 2)
  {
    if k >= 2 {
      ZerosSplit(t, 2, k);
      ZerosSplit(t, lo, k);
      ZerosSplit(t, lo, 2);
    } else {
      assert ZerosIn(t, lo, k) <= 1;
    }
  }

  /** f_getfree. Even when the scan fails, before entry `k`, its partial count becomes the cached one. */
  method GetFree(fs: Fatfs) returns (res: FResult, nclst: nat, ghost k: nat)
    requires fs.Valid()
    modifies fs`wflag, fs`winsect, fs`freeClst, fs`fsiFlag, fs.win, fs.disk
    ensures FatOnly(fs, old(fs.Logical()), old(fs.winsect), old(fs.disk.failed)) && fs.Logical() == old(fs.Logical())
    ensures res in {FR_OK, FR_INT_ERR, FR_DISK_ERR} && (res == FR_DISK_ERR ==> fs.disk.failed)
    ensures nclst == fs.freeClst && (fs.wflag ==> old(fs.wflag))
    ensures old(fs.freeClst) <= fs.vol.nFatent - 2 ==> res == FR_OK && nclst == old(fs.freeClst)
    ensures old(fs.freeClst) > fs.vol.nFatent - 2 ==>
      && ScanFrom(fs.vol) <= k <= fs.vol.nFatent && nclst == ZerosIn(fs.Fat(), ScanFrom(fs.vol), k)
      && (res == FR_OK <==> k == fs.vol.nFatent) && fs.fsiFlag % 2 == 1
    ensures res == FR_INT_ERR ==> FirstOne(fs.Fat(), k) && fs.vol.fsType == FAT12
    ensures old(fs.freeClst) > fs.vol.nFatent - 2 && res == FR_OK ==>
      (CountOk(fs) <==> Led(fs.vol, fs.Fat()) || nclst > fs.vol.nFatent - 2)
    ensures res == FR_INT_ERR ==> (CountOk(fs) <==> forall c :: k < c < fs.vol.nFatent ==> fs.Fat()[c] != 0)
    ensures res == FR_DISK_ERR ==>
      (CountOk(fs) <==>
         || nclst > fs.vol.nFatent - 2
         || Zeros(fs.Fat(), if k < 2 then 2 else k) == ZerosIn(fs.Fat(), ScanFrom(fs.vol), if k < 2 then k else 2))
    ensures old(CountOk(fs)) && res == FR_OK && Led(fs.vol, fs.Fat()) ==> CountOk(fs) && nclst == Zeros(fs.Fat(), 2)
  {
    hide Fatfs.Logical;
    hide Table;
    hide Mirrored;
    hide Sound;
    hide Zeros;
    hide ZerosIn;
    hide HasOne;
    VolumeBounds(fs.vol);
    ghost var t := fs.Fat();
    res, k := FR_OK, 0;
    if fs.freeClst <= fs.vol.nFatent - 2 {
      nclst := fs.freeClst;
    } else {
      var nfree;
      if fs.vol.fsType == FAT12 {
        res, nfree, k := CountEntries(fs);
      } else {
        res, nfree, k := CountWords(fs);
      }
      assert fs.Fat() == t;
      nclst := nfree;
      fs.freeClst := nfree;
      fs.fsiFlag := SetBit0(fs.fsiFlag);
      assert fs.Fat() == t;
      StoppedScan(t, ScanFrom(fs.vol), k);
      LeadingZeros(fs.vol, t);
      if res == FR_INT_ERR {
        PartialScanIsExact(t, k);
      }
    }
  }

  /** Nothing is free behind the last entry; the leading entries look free or not. */
  lemma LeadingZeros(v: Volume, t: seq<nat>)
    requires 3 <= |t|
    ensures Zeros(t, |t|) == 0
    ensures ZerosIn(t, ScanFrom(v), 2) == 0 <==> Led(v, t)
    ensures forall k :: 2 <= k <= |t| ==> ZerosIn(t, 2, k) <= k - 2
  {
    assert ZerosIn(t, 0, 2) == ZerosIn(t, 0, 1) + if t[1] == 0 then 1 else 0;
    assert ZerosIn(t, 0, 1) == if t[0] == 0 then 1 else 0;
  }

  /** A whole FAT has as many zero entries as free clusters exactly when the two leading entries are in use. */
  lemma ScanIsExact(t: seq<nat>)
    requires 2 <= |t|
    ensures Zeros(t, 0) == Zeros(t, 2) <==> t[0] != 0 && t[1] != 0
  {
    assert Zeros(t, 0) == (if t[0] == 0 then 1 else 0) + Zeros(t, 1);
    assert Zeros(t, 1) == (if t[1] == 0 then 1 else 0) + Zeros(t, 2);
  }

  /** A FAT12 scan that stops at a reserved entry leaves an exact count exactly when no cluster after it is free. */
  lemma PartialScanIsExact(t: seq<nat>, k: nat)
    requires FirstOne(t, k)
    ensures ZerosIn(t, 2, k) == Zeros(t, 2) <==> forall c :: k < c < |t| ==> t[c] != 0
  {
    ZerosSplit(t, 2, k);
    ZerosNone(t, k);
  }

  /** A full FAT16 or FAT32 scan of a volume with a zero leading entry stores one too many: 2 instead of 1. */
  lemma FullScanCounterexample()
    ensures var t := [0, 0xFFFF, 0, 0xFFFF, 0xFFFF];
            ZerosIn(t, 0, 5) == 2 <= |t| - 2 && Zeros(t, 2) == 1
  {
    var t: seq<nat> := [0, 0xFFFF, 0, 0xFFFF, 0xFFFF];
    assert Zeros(t, 5) == 0 && Zeros(t, 4) == 0 && Zeros(t, 3) == 0;
    assert ZerosIn(t, 0, 1) == 1 && ZerosIn(t, 0, 2) == 1 && ZerosIn(t, 0, 3) == 2 && ZerosIn(t, 0, 4) == 2;
  }

  /** A FAT12 volume on which f_getfree fails and still caches a wrong count: 0 instead of 1. */
  lemma PartialScanCounterexample()
    ensures var t := [0xFF8, 0xFFF, 1, 0];
            FirstOne(t, 2) && ZerosIn(t, 2, 2) == 0 && Zeros(t, 2) == 1
  {
    var t: seq<nat> := [0xFF8, 0xFFF, 1, 0];
    assert Zeros(t, 4) == 0 && Zeros(t, 3) == 1 && Zeros(t, 2) == 1;
  }
}
