/** The end of f_open: a file object for the entry in the window, rewound, or at its end for appending. */
module FileOpen {
  import opened Arith
  import opened Bytes
  import opened Layout
  import opened Disk
  import opened Window
  import opened FatAccess
  import opened Chains
  import opened Alloc
  import opened FileData
  import opened DataIo
  import opened FileState
  import opened File
  import opened DirEntry
  import opened OnDisk
  import opened FileSeek
  import FR = FileRead

  /** A new file object on a recorded file. */
  function Fresh(v: Volume, img: Image, s: nat, o: nat, chain: seq<nat>, data: Content): FileView
    requires s < |img| && o + SZDIRE <= SS
  {
    FileView(LdClust(v.fsType, img[s], o), LdSize(img[s], o), false, 0, 0, 0, Blank(), chain, data)
  }

  /** A recorded file, opened, satisfies the invariant. */
  lemma FreshCore(v: Volume, img: Image, s: nat, o: nat, f: FileView, dirClust: nat)
    requires Recorded(v, img, s, o, f) && DirAt(v, Table(v, img), dirClust, s, o, f.chain)
    requires !f.dirty && f.fptr == 0 && f.sect == 0
    ensures FileOk(v, img, s, f)
  {
    hide Table;
    hide FileSectors;
    hide LdClust;
    hide Sound;
    VolumeBounds(v);
    FileSectorsSound(v, img, f.sclust, f.chain);
    NoSectorZero(v);
    FileSectorsClear(v, img, f, dirClust, s, o);
  }

  lemma NoSectorZero(v: Volume)
    requires Sound(v)
    ensures v.database > 0
  {
  }

  /** The entry's sector is not one of the file's. */
  lemma FileSectorsClear(v: Volume, img: Image, f: FileView, dirClust: nat, s: nat, o: nat)
    requires Recorded(v, img, s, o, f) && DirAt(v, Table(v, img), dirClust, s, o, f.chain)
    requires !f.dirty && f.fptr == 0 && f.sect == 0
    ensures s !in FileSectors(v, f.chain)
  {
    hide Table;
    hide FileSectors;
    hide LdClust;
    FileSectorsSound(v, img, f.sclust, f.chain);
    NoSectorZero(v);
    DirClear(v, img, f, 0, dirClust, s, o);
  }

  /** Where the walk of an append-open stands: `ofs` bytes of the size are left from cluster `k` on. */
  ghost predicate Left(v: Volume, f: FileView, k: nat, clst: nat, ofs: nat)
  {
    k < |f.chain| && clst == f.chain[k] && 0 < ofs && f.objsize == Bcs(v) * k + ofs
  }

  /** A file with bytes has a first cluster to walk from. */
  lemma LeftStart(v: Volume, img: Image, ws: nat, f: FileView)
    requires Fits(v, img) && Core(v, img, ws, f) && f.objsize > 0
    ensures Left(v, f, 0, f.sclust, f.objsize)
  {
    hide Holds;
    hide Table;
    hide FileSectors;
    CoreCapacity(v, img, ws, f);
  }

  /** While more than a cluster is left there is a next one. */
  lemma LeftNext(v: Volume, img: Image, ws: nat, f: FileView, k: nat, clst: nat, ofs: nat)
    requires Fits(v, img) && Core(v, img, ws, f) && Left(v, f, k, clst, ofs) && ofs > Bcs(v)
    ensures k + 1 < |f.chain| && 2 <= clst < v.nFatent && 2 <= f.chain[k + 1] < v.nFatent
    ensures Table(v, img)[clst] == f.chain[k + 1]
    ensures Left(v, f, k + 1, f.chain[k + 1], ofs - Bcs(v))
  {
    hide Core;
    hide Table;
    hide Sound;
    EnoughClusters(v, img, ws, f, k, Bcs(v) * k, ofs);
    FR.ChainLink(v, img, ws, f, k + 1);
    assert Bcs(v) * (k + 1) == Bcs(v) * k + Bcs(v);
  }

  /** The loop of an append-open: follow the chain to the cluster of the last byte. */
  method WalkToEnd(fs: Fatfs, fp: Fil) returns (res: FResult, clst: nat, ofs: nat, ghost k: nat)
    requires fp.Ready(fs) && fp.objsize > 0
    modifies fs`wflag, fs`winsect, fs.win, fs.disk
    ensures fs.Valid() && (old(fs.disk.failed) ==> fs.disk.failed) && fs.Logical() == old(fs.Logical())
    ensures res == FR_OK || (res == FR_DISK_ERR && fs.disk.failed)
    ensures res == FR_OK ==> fp.Ready(fs) && Left(fs.vol, fp.View(), k, clst, ofs) && ofs <= Bcs(fs.vol)
    ensures WindowNearFat(fs.vol, old(fs.winsect), fs.winsect) && (fs.wflag ==> old(fs.wflag))
  {
    hide FileSectors;
    hide Table;
    hide Fatfs.Logical;
    hide Mirrored;
    hide Core;
    hide Left;
    hide Sound;
    VolumeBounds(fs.vol);
    ghost var img, f := fs.Logical(), fp.View();
    LeftStart(fs.vol, img, fs.winsect, f);
    var bcs := Bcs(fs.vol);
    res, clst, ofs, k := FR_OK, fp.sclust, fp.objsize, 0;
    while res == FR_OK && ofs > bcs
      invariant fs.Valid() && (old(fs.disk.failed) ==> fs.disk.failed) && fs.Logical() == img
      invariant res == FR_OK || (res == FR_DISK_ERR && fs.disk.failed)
      invariant res == FR_OK ==> fp.Ready(fs) && Left(fs.vol, f, k, clst, ofs)
      invariant WindowNearFat(fs.vol, old(fs.winsect), fs.winsect) && (fs.wflag ==> old(fs.wflag))
      decreases res == FR_OK, ofs
    {
      ghost var ws := fs.winsect;
      LeftNext(fs.vol, img, ws, f, k, clst, ofs);
      clst := GetFat(fs, clst);
      CoreWindow(fs.vol, img, ws, fs.winsect, f);
      if clst <= 1 { res := FR_INT_ERR; }
      if clst == FAT_ERROR { res := FR_DISK_ERR; }
      ofs, k := ofs - bcs, k + 1;
    }
  }

  lemma LeftLands(v: Volume, f: FileView, k: nat, clst: nat, ofs: nat)
    requires Left(v, f, k, clst, ofs) && ofs <= Bcs(v)
    ensures Lands(v, f, k, ofs, f.objsize) && clst == f.chain[k]
  {
  }

  /** f_open with FA_SEEKEND: position, current cluster and sector buffer at the end of the file. */
  method SeekEnd(fs: Fatfs, fp: Fil) returns (res: FResult)
    requires fp.Ready(fs) && fp.objsize > 0 && !fp.dirty
    modifies fp`fptr, fp`clust, fp`sect, fp.buf, fs`wflag, fs`winsect, fs.win, fs.disk
    ensures fs.Valid() && (old(fs.disk.failed) ==> fs.disk.failed) && fs.Logical() == old(fs.Logical())
    ensures res == FR_OK || (res == FR_DISK_ERR && fs.disk.failed)
    ensures res == FR_OK ==> fp.Valid(fs)
    ensures res == FR_OK ==>
      fp.View() == old(fp.View()).(fptr := fp.objsize, clust := fp.clust, sect := fp.sect, buf := fp.buf[..])
    ensures WindowNearFat(fs.vol, old(fs.winsect), fs.winsect) && (fs.wflag ==> old(fs.wflag))
  {
    hide FileSectors;
    hide Table;
    hide Fatfs.Logical;
    hide Mirrored;
    hide Core;
    hide Left;
    hide Sound;
    hide Lands;
    hide SectorIs;
    hide OnSector;
    hide Position;
    hide ClusterSector;
    VolumeBounds(fs.vol);
    ghost var img := fs.Logical();
    ghost var k;
    var clst, ofs;
    res, clst, ofs, k := WalkToEnd(fs, fp);
    if res != FR_OK {
      return;
    }
    LeftLands(fs.vol, fp.View(), k, clst, ofs);
    LandsMoved(fs.vol, fp.View(), fp.View().(fptr := fp.objsize, clust := clst), k, ofs);
    ClustPlace(fs.vol, img, fs.winsect, fp.View(), k);
    CoreEnd(fs.vol, img, fs.winsect, fp.View(), clst);
    fp.fptr := fp.objsize;
    fp.clust := clst;
    Landed(fs.vol, fp.View(), k, ofs);
    if ofs % SS != 0 {
      var sc := Clst2Sect(fs.vol, clst);
      if sc == 0 { return FR_INT_ERR; }
      ghost var f := fp.View();
      SectorPlace(fs.vol, img, fs.winsect, f, sc + ofs / SS);
      fp.sect := sc + ofs / SS;
      var ok := ReadData(fs, fp.buf, fp.sect);
      if !ok { return FR_DISK_ERR; }
      LoadStep(fs.vol, img, fs.winsect, f, fp.sect);
      OnSectorIsPosition(fs.vol, fp.View());
    }
  }

  lemma CoreEnd(v: Volume, img: Image, ws: nat, f: FileView, clst: nat)
    requires Fits(v, img) && Core(v, img, ws, f)
    ensures Core(v, img, ws, f.(fptr := f.objsize, clust := clst))
  {
  }

  /** The last part of f_open on the entry at `dirOfs` in the window, for a file `chain`, `data` recorded there. */
  method OpenFile(fs: Fatfs, canRead: bool, canWrite: bool, seekEnd: bool, dirOfs: nat,
                  ghost dirClust: nat, ghost chain: seq<nat>, ghost data: Content)
      returns (res: FResult, fp: Fil)
    requires fs.Valid() && fs.winsect < |fs.Logical()| && dirOfs + SZDIRE <= SS
    requires Recorded(fs.vol, fs.Logical(), fs.winsect, dirOfs,
        Fresh(fs.vol, fs.Logical(), fs.winsect, dirOfs, chain, data))
    requires DirAt(fs.vol, fs.Fat(), dirClust, fs.winsect, dirOfs, chain)
    modifies fs`wflag, fs`winsect, fs.win, fs.disk
    ensures fresh(fp) && fresh(fp.buf)
    ensures fs.Valid() && (old(fs.disk.failed) ==> fs.disk.failed) && fs.Logical() == old(fs.Logical())
    ensures res == FR_OK || (res == FR_DISK_ERR && fs.disk.failed)
    ensures fp.canRead == canRead && fp.canWrite == canWrite && fp.err == FR_OK && !fp.modified
    ensures fp.dirClust == dirClust && fp.dirSect == old(fs.winsect) && fp.dirOfs == dirOfs
    ensures res == FR_OK ==> fp.Valid(fs) && fp.chain == chain && fp.data == data && !fp.dirty
    ensures EntryNames(fs.vol.fsType, old(fs.win[..]), dirOfs, fp.sclust, fp.objsize)
    ensures res == FR_OK ==> fp.fptr == if seekEnd then |data| else 0
    ensures res == FR_OK ==> Recorded(fs.vol, fs.Logical(), fp.dirSect, fp.dirOfs, fp.View())
    ensures WindowNearFat(fs.vol, old(fs.winsect), fs.winsect) && (fs.wflag ==> old(fs.wflag))
  {
    hide FileSectors;
    hide Table;
    hide Fatfs.Logical;
    hide Mirrored;
    hide Sound;
    hide LdClust;
    hide LdSize;
    hide Core;
    hide Position;
    hide Recorded;
    res := FR_OK;
    ghost var img, s := fs.Logical(), fs.winsect;
    ShownSector(fs, dirClust, dirOfs, chain);
    FieldBytes(fs.vol.fsType, fs.win[..], dirOfs);
    fp := new Fil(canRead, canWrite, fs.winsect, dirOfs,
                  LdClust(fs.vol.fsType, fs.win[..], dirOfs), LdSize(fs.win[..], dirOfs), dirClust, chain, data);
    RecordedView(fs.vol, img, s, dirOfs, Fresh(fs.vol, img, s, dirOfs, chain, data), fp.View());
    FreshCore(fs.vol, img, s, dirOfs, fp.View(), dirClust);
    if seekEnd && fp.objsize > 0 {
      ghost var f := fp.View();
      res := SeekEnd(fs, fp);
      RecordedView(fs.vol, img, s, dirOfs, f, fp.View());
    }
  }

  /** What is recorded does not depend on position, current cluster or buffer. */
  lemma RecordedView(v: Volume, img: Image, s: nat, o: nat, f: FileView, g: FileView)
    requires Recorded(v, img, s, o, f)
    requires g == f.(fptr := g.fptr, clust := g.clust, sect := g.sect, buf := g.buf, dirty := g.dirty)
    ensures Recorded(v, img, s, o, g)
  {
  }

  /** The window shows the entry's sector. */
  lemma ShownSector(fs: Fatfs, dirClust: nat, o: nat, chain: seq<nat>)
    requires fs.Valid() && fs.winsect < |fs.Logical()| && DirAt(fs.vol, fs.Fat(), dirClust, fs.winsect, o, chain)
    ensures fs.win[..] == fs.Logical()[fs.winsect]
  {
    DirOffFat(fs.vol, fs.Logical(), dirClust, fs.winsect, o, chain);
  }

  lemma DirOffFat(v: Volume, img: Image, dirClust: nat, s: nat, o: nat, chain: seq<nat>)
    requires Fits(v, img) && DirAt(v, Table(v, img), dirClust, s, o, chain)
    ensures !InFat2(v, s) && !IsInfo(v, s)
  {
    hide Table;
    if dirClust != 0 {
      ClusterInData(v, dirClust, s);
    } else {
      FatFits(v, img);
    }
  }
}
