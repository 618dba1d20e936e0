/** Directory tables: random access (dir_sdi) and sequential access (dir_next without stretching). */
module DirWalk {
  import opened Arith
  import opened Bytes
  import opened FatCodec
  import opened Layout
  import opened Disk
  import opened Window
  import opened FatAccess
  import opened DirEntry
  import VB = Alloc

  const MAX_DIR := 0x20_0000

  /** Cluster, sector, and offset in the sector of a directory entry. */
  datatype Place = Place(clust: nat, sect: nat, ofs: nat)

  /** The cluster `k` links after `c`; None where a link is missing or bad. */
  function Walk(t: seq<nat>, c: nat, k: nat): Option<nat>
    decreases k
  {
    if k == 0 then Some(c)
    else if 2 <= c < |t| && 2 <= t[c] < |t| then Walk(t, t[c], k - 1)
    else None
  }

  lemma WalkNowhere(t: seq<nat>, c: nat)
    ensures Walk(t, c, 0) == Some(c)
  {
  }

  lemma OneMore(b: nat, k: nat)
    ensures b * (k + 1) == b * k + b
  {
  }

  /** One more link. */
  lemma {:induction false} WalkOn(t: seq<nat>, c: nat, k: nat)
    ensures Walk(t, c, k + 1) == match Walk(t, c, k)
                                 case None => None
                                 case Some(d) => if 2 <= d < |t| && 2 <= t[d] < |t| then Some(t[d]) else None
    decreases k
  {
    if k > 0 && 2 <= c < |t| && 2 <= t[c] < |t| {
      WalkOn(t, t[c], k - 1);
    }
  }

  /** The first cluster of a table, 0 for a static root directory. */
  function Start(v: Volume, sclust: nat): nat
  {
    if sclust == 0 && v.fsType == FAT32 then v.dirbase else sclust
  }

  /** Which of the table's clusters an offset falls in, and which of the cluster's sectors. */
  function ClusterNo(v: Volume, ofs: nat): nat
    requires v.csize > 0
  {
    ofs / SS / v.csize
  }

  function SectorNo(v: Volume, ofs: nat): nat
    requires v.csize > 0
  {
    ofs / SS % v.csize
  }

  /** Where the entry at offset `ofs` of a table lies, if there is one. */
  function PlaceOf(v: Volume, t: seq<nat>, sclust: nat, ofs: nat): (p: Option<Place>)
    requires Sound(v) && |t| == v.nFatent
  {
    if ofs >= MAX_DIR || ofs % SZDIRE != 0 then None
    else if Start(v, sclust) == 0 then
      if ofs / SZDIRE < v.nRootdir then Some(Place(0, v.dirbase + ofs / SS, ofs % SS)) else None
    else
      match Walk(t, Start(v, sclust), ClusterNo(v, ofs))
      case None => None
      case Some(c) =>
        if 2 <= c < v.nFatent then Some(Place(c, FirstSector(v, c) + SectorNo(v, ofs), ofs % SS)) else None
  }

  /** The entry at offset `ofs`, in numbers: at most 2 MB of 32-byte entries, sixteen to a sector, counted through the
      static root directory or along the chain. */
  predicate Stands(v: Volume, t: seq<nat>, sclust: nat, ofs: nat, p: Place)
    requires v.csize > 0
  {
    && ofs < 0x20_0000 && ofs % 32 == 0 && p.ofs == ofs % 512
    && var first := if sclust == 0 && v.fsType == FAT32 then v.dirbase else sclust;
       if first == 0 then p.clust == 0 && ofs / 32 < v.nRootdir && p.sect == v.dirbase + ofs / 512
       else InChain(v, t, first, ofs / 512, p)
  }

  /** Sector `q` of the chain that starts in cluster `first`. */
  predicate InChain(v: Volume, t: seq<nat>, first: nat, q: nat, p: Place)
    requires v.csize > 0
  {
    && 2 <= p.clust < v.nFatent && Walk(t, first, q / v.csize) == Some(p.clust)
    && p.sect == v.database + v.csize * (p.clust - 2) + q % v.csize
  }

  /** PlaceOf finds that place, and fails only where there is none. */
  lemma PlaceIs(v: Volume, t: seq<nat>, sclust: nat, ofs: nat)
    requires Sound(v) && |t| == v.nFatent
    ensures forall p :: Stands(v, t, sclust, ofs, p) <==> PlaceOf(v, t, sclust, ofs) == Some(p)
  {
    hide Sound;
    hide Walk;
    VB.VolumeBounds(v);
  }

  function FirstSector(v: Volume, c: nat): (s: nat)
    requires Sound(v) && 2 <= c < v.nFatent
    ensures s == Clst2Sect(v, c) > 0
  {
    ClusterInData(v, c, ClusterSector(v, c));
    ClusterSector(v, c)
  }

  lemma StaticRoot(v: Volume)
    requires Sound(v) && v.nRootdir > 0
    ensures v.dirbase > 0 && v.fsType != FAT32
  {
  }

  /** An offset in a table of clusters of `csize` sectors: its cluster, its sector in that, its offset in that. */
  lemma InBlock(ofs: nat, csize: nat, k: nat, rest: nat)
    requires csize > 0 && ofs == SS * csize * k + rest && rest < SS * csize
    ensures ofs / SS / csize == k && ofs / SS % csize == rest / SS && ofs % SS == rest % SS
  {
    DivModFacts(rest, SS);
    MulMono(csize, 0, k);
    assert SS * csize * k == SS * (csize * k);
    DivModUnique(ofs, SS, csize * k + rest / SS, rest % SS);
    DivModUnique(csize * k + rest / SS, csize, k, rest / SS);
  }

  /** What an offset's place is once the walk has reached its cluster. */
  lemma Arrived(v: Volume, t: seq<nat>, sclust: nat, ofs: nat, k: nat, rest: nat, clst: nat)
    requires Sound(v) && |t| == v.nFatent && Start(v, sclust) != 0 && ofs < MAX_DIR && ofs % SZDIRE == 0
    requires ofs == SS * v.csize * k + rest && rest < SS * v.csize && Walk(t, Start(v, sclust), k) == Some(clst)
    ensures PlaceOf(v, t, sclust, ofs) ==
      if 2 <= clst < v.nFatent then Some(Place(clst, Clst2Sect(v, clst) + rest / SS, rest % SS)) else None
  {
    InBlock(ofs, v.csize, k, rest);
  }

  lemma NoSuchPlace(v: Volume, t: seq<nat>, sclust: nat, ofs: nat)
    requires Sound(v) && |t| == v.nFatent && (ofs >= MAX_DIR || ofs % SZDIRE != 0)
    ensures PlaceOf(v, t, sclust, ofs) == None
  {
  }

  lemma StaticPlace(v: Volume, t: seq<nat>, sclust: nat, ofs: nat)
    requires Sound(v) && |t| == v.nFatent && Start(v, sclust) == 0 && ofs < MAX_DIR && ofs % SZDIRE == 0
    ensures PlaceOf(v, t, sclust, ofs) == if ofs / SZDIRE < v.nRootdir
      then Some(Place(0, v.dirbase + ofs / SS, ofs % SS)) else None
  {
  }

  /** Once a link is missing, it stays missing. */
  lemma {:induction false} WalkStops(t: seq<nat>, c: nat, k: nat, m: nat)
    requires k <= m && Walk(t, c, k) == None
    ensures Walk(t, c, m) == None
    decreases m - k
  {
    if k < m {
      WalkOn(t, c, k);
      WalkStops(t, c, k + 1, m);
    }
  }

  /** An offset behind a missing link has no place. */
  lemma NotThatFar(v: Volume, t: seq<nat>, sclust: nat, ofs: nat, k: nat, rest: nat)
    requires Sound(v) && |t| == v.nFatent && Start(v, sclust) != 0
    requires ofs == SS * v.csize * k + rest && rest >= SS * v.csize && Walk(t, Start(v, sclust), k + 1) == None
    ensures PlaceOf(v, t, sclust, ofs) == None
  {
    var b := SS * v.csize;
    DivModFacts(ofs, b);
    DivDiv(ofs, SS, v.csize);
    assert b * (k + 1) == b * k + b;
    if ofs / b < k + 1 {
      MulStep(b, ofs / b, k + 1);
    }
    WalkStops(t, Start(v, sclust), k + 1, ofs / SS / v.csize);
  }

  class Dir {
    const sclust: nat
    var dptr: nat
    var clust: nat
    var sect: nat
    /** dp->dir, as an offset into the window. */
    var dir: nat

    constructor (sclust: nat)
      ensures this.sclust == sclust
    {
      this.sclust := sclust;
      dptr, clust, sect, dir := 0, 0, 0, 0;
    }

    /** The directory object stands on the entry at `dptr`. */
    ghost predicate On(fs: Fatfs)
      requires fs.Shape()
      reads this, fs`wflag, fs`winsect, fs.win, fs.disk`image
    {
      PlaceOf(fs.vol, fs.Fat(), sclust, dptr) == Some(Place(clust, sect, dir))
    }
  }

  /** The loop of dir_sdi: follow the chain from `first` while a whole cluster of the offset is left. */
  method Along(fs: Fatfs, ghost sclust: nat, first: nat, ofs: nat) returns (res: FResult, clst: nat, rest: nat,
      ghost k: nat)
    requires fs.Valid() && first == Start(fs.vol, sclust) != 0
    modifies fs`wflag, fs`winsect, fs.win, fs.disk
    ensures fs.Valid() && fs.Logical() == old(fs.Logical())
    ensures res in {FR_OK, FR_INT_ERR} || (res == FR_DISK_ERR && fs.disk.failed)
    ensures res == FR_OK ==>
      && ofs == SS * fs.vol.csize * k + rest && rest < SS * fs.vol.csize
      && Walk(fs.Fat(), Start(fs.vol, sclust), k) == Some(clst)
    ensures res == FR_INT_ERR ==> PlaceOf(fs.vol, fs.Fat(), sclust, ofs) == None
  {
    hide Fatfs.Logical;
    hide Table;
    hide Mirrored;
    hide Sound;
    hide PlaceOf;
    hide Walk;
    hide Start;
    hide PlainEntry;
    ghost var t := fs.Fat();
    VB.VolumeBounds(fs.vol);
    WalkNowhere(t, first);
    res, clst, rest, k := FR_OK, first, ofs, 0;
    var csz := SS * fs.vol.csize;
    while rest >= csz
      invariant fs.Valid() && fs.Logical() == old(fs.Logical()) && fs.Fat() == t
      invariant ofs == csz * k + rest && Walk(t, first, k) == Some(clst)
      decreases rest
    {
      WalkOn(t, first, k);
      clst := GetFat(fs, clst);
      if clst == FAT_ERROR { return FR_DISK_ERR, clst, rest, k; }
      if clst < 2 || clst >= fs.vol.nFatent {
        NotThatFar(fs.vol, t, sclust, ofs, k, rest);
        return FR_INT_ERR, clst, rest, k;
      }
      OneMore(csz, k);
      rest, k := rest - csz, k + 1;
    }
  }

  method DirSdi(fs: Fatfs, dp: Dir, ofs: nat) returns (res: FResult)
    requires fs.Valid()
    modifies dp, fs`wflag, fs`winsect, fs.win, fs.disk
    ensures fs.Valid() && fs.Logical() == old(fs.Logical())
    ensures res in {FR_OK, FR_INT_ERR} || (res == FR_DISK_ERR && fs.disk.failed)
    ensures res == FR_OK ==> dp.dptr == ofs && dp.On(fs)
    ensures res == FR_INT_ERR ==> PlaceOf(fs.vol, fs.Fat(), dp.sclust, ofs) == None
  {
    hide Fatfs.Logical;
    hide Table;
    hide Mirrored;
    hide Sound;
    hide ClusterSector;
    hide PlaceOf;
    hide Clst2Sect;
    hide Walk;
    ghost var t := fs.Fat();
    VB.VolumeBounds(fs.vol);
    if ofs >= MAX_DIR || ofs % SZDIRE != 0 {
      NoSuchPlace(fs.vol, t, dp.sclust, ofs);
      return FR_INT_ERR;
    }
    dp.dptr := ofs;
    var clst := dp.sclust;
    if clst == 0 && fs.vol.fsType == FAT32 {
      clst := fs.vol.dirbase;
    }
    var rest: nat := ofs;
    if clst == 0 {
      StaticPlace(fs.vol, t, dp.sclust, ofs);
      if ofs / SZDIRE >= fs.vol.nRootdir { return FR_INT_ERR; }
      dp.sect := fs.vol.dirbase;
      StaticRoot(fs.vol);
    } else {
      ghost var k;
      res, clst, rest, k := Along(fs, dp.sclust, clst, ofs);
      if res != FR_OK { return; }
      dp.sect := Clst2Sect(fs.vol, clst);
      Arrived(fs.vol, t, dp.sclust, ofs, k, rest, clst);
    }
    dp.clust := clst;
    if dp.sect == 0 { return FR_INT_ERR; }
    dp.sect := dp.sect + rest / SS;
    dp.dir := rest % SS;
    res := FR_OK;
  }

  /** Sector and cluster of the next entry's offset. */
  lemma NextOffset(v: Volume, ofs: nat)
    requires v.csize > 0 && v.nRootdir % 16 == 0 && ofs % SZDIRE == 0
    ensures var n := ofs + SZDIRE;
            && n % SZDIRE == 0
               && (n % SS != 0 ==>
                 n / SS == ofs / SS && ClusterNo(v, n) == ClusterNo(v, ofs) && SectorNo(v, n) == SectorNo(v, ofs))
            && (n % SS == 0 ==> n / SS == ofs / SS + 1)
            && (n % SS == 0 && n / SS % v.csize != 0 ==>
                 ClusterNo(v, n) == ClusterNo(v, ofs) && SectorNo(v, n) == SectorNo(v, ofs) + 1)
            && (n % SS == 0 && n / SS % v.csize == 0 ==>
                 ClusterNo(v, n) == ClusterNo(v, ofs) + 1 && SectorNo(v, n) == 0)
    ensures (ofs + SZDIRE) % SS != 0 && ofs / SZDIRE < v.nRootdir ==> (ofs + SZDIRE) / SZDIRE < v.nRootdir
  {
    var n, q, c := ofs + SZDIRE, ofs / SS, v.csize;
    EntriesPerSector(ofs, v.nRootdir);
    if n % SS == 0 {
      DivModFacts(q, c);
      if q % c == c - 1 {
        DivModUnique(q + 1, c, q / c + 1, 0);
      } else {
        DivModUnique(q + 1, c, q / c, q % c + 1);
      }
    }
  }

  /** Sixteen entries to a sector. */
  lemma EntriesPerSector(ofs: nat, n: nat)
    requires ofs % 32 == 0 && n % 16 == 0
    ensures (ofs + 32) % 32 == 0
    ensures if (ofs + 32) % 512 == 0 then (ofs + 32) / 512 == ofs / 512 + 1 else (ofs + 32) / 512 == ofs / 512
    ensures (ofs + 32) % 512 != 0 && ofs / 32 < n ==> (ofs + 32) / 32 < n
  {
    var e := ofs / 32;
    var q, r := e / 16, e % 16;
    DivModFacts(ofs, 32);
    DivModFacts(e, 16);
    DivModUnique(ofs, 512, q, 32 * r);
    DivModUnique(ofs + 32, 32, e + 1, 0);
    if r == 15 {
      DivModUnique(ofs + 32, 512, q + 1, 0);
    } else {
      DivModUnique(ofs + 32, 512, q, 32 * r + 32);
      DivModFacts(n, 16);
    }
  }

  /** The next entry's place from this one's. */
  lemma NextPlace(v: Volume, t: seq<nat>, sclust: nat, ofs: nat, p: Place)
    requires Sound(v) && |t| == v.nFatent && PlaceOf(v, t, sclust, ofs) == Some(p)
    ensures ofs % SZDIRE == 0 && (p.clust == 0 <==> Start(v, sclust) == 0) && p.sect > 0
    ensures p.clust != 0 ==> 2 <= p.clust < v.nFatent
    ensures var n := ofs + SZDIRE;
            PlaceOf(v, t, sclust, n) ==
              if n >= MAX_DIR then None
              else if n % SS != 0 then Some(p.(ofs := n % SS))
              else if p.clust == 0 then (if n / SZDIRE >= v.nRootdir then None else Some(Place(0, p.sect + 1, 0)))
              else if n / SS % v.csize != 0 then Some(Place(p.clust, p.sect + 1, 0))
              else if t[p.clust] < 2 || t[p.clust] >= |t| then None
              else Some(Place(t[p.clust], FirstSector(v, t[p.clust]), 0))
  {
    hide ClusterNo;
    hide SectorNo;
    hide ClusterSector;
    NextOffset(v, ofs);
    if Start(v, sclust) == 0 {
      StaticRoot(v);
    } else {
      WalkOn(t, Start(v, sclust), ClusterNo(v, ofs));
    }
  }

  /** dir_next(dp, 0). */
  method DirNext(fs: Fatfs, dp: Dir) returns (res: FResult)
    requires fs.Valid() && (dp.sect != 0 ==> dp.On(fs))
    modifies dp, fs`wflag, fs`winsect, fs.win, fs.disk
    ensures fs.Valid() && fs.Logical() == old(fs.Logical())
    ensures res in {FR_OK, FR_NO_FILE, FR_INT_ERR} || (res == FR_DISK_ERR && fs.disk.failed)
    ensures old(dp.sect) == 0 ==> res == FR_NO_FILE
    ensures res == FR_OK ==> dp.dptr == old(dp.dptr) + 32 && dp.On(fs)
    ensures res == FR_NO_FILE ==> dp.sect == 0
    ensures res in {FR_NO_FILE, FR_INT_ERR} && old(dp.sect) != 0 ==>
      PlaceOf(fs.vol, fs.Fat(), dp.sclust, old(dp.dptr) + SZDIRE) == None
  {
    hide Fatfs.Logical;
    hide Table;
    hide Mirrored;
    hide Sound;
    hide ClusterSector;
    hide PlaceOf;
    hide Walk;
    hide Clst2Sect;
    hide And;
    VB.VolumeBounds(fs.vol);
    ghost var t := fs.Fat();
    var ofs := dp.dptr + SZDIRE;
    if dp.sect != 0 {
      NextPlace(fs.vol, t, dp.sclust, dp.dptr, Place(dp.clust, dp.sect, dp.dir));
    }
    if ofs >= MAX_DIR {
      dp.sect := 0;
    }
    if dp.sect == 0 { return FR_NO_FILE; }
    if ofs % SS == 0 {
      dp.sect := dp.sect + 1;
      if dp.clust == 0 {
        if ofs / SZDIRE >= fs.vol.nRootdir {
          dp.sect := 0;
          return FR_NO_FILE;
        }
      } else {
        SectorMask(fs.vol, ofs / SS);
        if And(ofs / SS, fs.vol.csize - 1) == 0 {
          var clst := GetFat(fs, dp.clust);
          if clst <= 1 { return FR_INT_ERR; }
          if clst == FAT_ERROR { return FR_DISK_ERR; }
          if clst >= fs.vol.nFatent {
            dp.sect := 0;
            return FR_NO_FILE;
          }
          dp.clust := clst;
          dp.sect := Clst2Sect(fs.vol, clst);
        }
      }
    }
    dp.dptr := ofs;
    dp.dir := ofs % SS;
    res := FR_OK;
  }

  lemma SectorMask(v: Volume, q: nat)
    requires Sound(v)
    ensures And(q, v.csize - 1) == q % v.csize
  {
    MaskIsRemainder(q, v.csize);
  }
}
