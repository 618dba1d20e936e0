/** f_write: bytes go to the file through its sector buffer or, whole sectors at a time, straight to the drive. */
module FileWrite {
  import opened Arith
  import opened Bytes
  import opened Layout
  import opened Disk
  import opened Window
  import opened FatAccess
  import opened Chains
  import opened Alloc
  import opened FileData
  import opened DataIo
  import opened FileState
  import opened File

  /** At the start of a cluster: follow or stretch the chain and make the result the current cluster. */
  method NextToWrite(fs: Fatfs, fp: Fil) returns (clst: nat)
    requires fp.Valid(fs) && OnBoundary(fs.vol, fp.fptr)
    modifies fp`sclust, fp`clust, fp`chain, fs`wflag, fs`winsect, fs`freeClst, fs`lastClst, fs`fsiFlag, fs.win, fs.disk
    ensures fs.Valid() && (old(fs.disk.failed) ==> fs.disk.failed)
    ensures clst == FAT_ERROR ==> fs.disk.failed
    ensures clst <= 1 ==> fp.Valid(fs) && fp.View() == old(fp.View()) && fs.Logical() == old(fs.Logical())
    ensures clst == 0 ==> fp.fptr == fp.objsize
    ensures clst == 0 && old(CountOk(fs)) ==> NoFree(fs.Fat())
    ensures clst == 1 ==> HasOne(fs.Fat())
    ensures clst > 1 && clst != FAT_ERROR ==>
      && fp.Ready(fs) && At(fs.vol, fp.View())
      && fp.View() == old(fp.View()).(sclust := fp.sclust, chain := fp.chain, clust := clst)
      && old(fp.chain) <= fp.chain
      && Frame(fs.vol, old(fs.Logical()), fs.Logical(), old(fp.chain), fp.chain)
    ensures clst != FAT_ERROR && old(CountOk(fs)) ==> CountOk(fs)
    ensures WindowNearFat(fs.vol, old(fs.winsect), fs.winsect)
  {
    hide FileSectors;
    hide Table;
    hide Fatfs.Logical;
    hide Mirrored;
    hide Sound;
    hide Core;
    VolumeBounds(fs.vol);
    CoreStart(fs.vol, fs.Logical(), fs.winsect, fp.View());
    hide Frame;
    hide NoFree;
    hide HasOne;
    hide Zeros;
    hide OnBoundary;
    hide ClusterIndex;
    hide At;
    hide Position;
    CoreCapacity(fs.vol, fs.Logical(), fs.winsect, fp.View());
    BoundaryPosition(fs.vol, fp.View());
    BoundaryEnd(fs.vol, fp.View());
    FrameSame(fs.vol, fs.Logical(), fp.chain);
    ghost var k := ClusterIndex(fs.vol, fp.fptr);
    clst := fp.sclust;
    if fp.fptr > 0 || clst == 0 {
      clst := Stretch(fs, fp, k, if fp.fptr > 0 then fp.clust else 0);
    }
    if clst <= 1 || clst == FAT_ERROR {
      return;
    }
    CoreClust(fs.vol, fs.Logical(), fs.winsect, fp.View(), clst);
    fp.clust := clst;
    BoundaryAt(fs.vol, fp.View());
  }

  /** mem_cpy of `n` bytes of the caller's buffer into the sector buffer. */
  method CopyIn(fp: Fil, o: nat, buff: array<Byte>, at: nat, n: nat)
    requires fp.buf.Length == SS && o + n <= SS && at + n <= buff.Length && buff != fp.buf
    modifies fp.buf
    ensures fp.buf[..] == old(fp.buf[..])[..o] + buff[at..at + n] + old(fp.buf[..])[o + n..]
  {
    for i := 0 to n
      invariant forall j :: 0 <= j < SS ==> fp.buf[j] == if o <= j < o + i then buff[at + j - o] else old(fp.buf[j])
    {
      fp.buf[o + i] := buff[at + i];
    }
  }

  /** What the for loop of f_write updates after each transfer: the position moves on and the content does not
      shrink. */
  method Moved(fp: Fil, n: nat, ghost w: seq<Byte>)
    requires fp.buf.Length == SS && fp.fptr <= |fp.data| == fp.objsize && |w| == n
    modifies fp`fptr, fp`objsize, fp`data
    ensures fp.View() == AfterWrite(old(fp.View()), w, fp.dirty, fp.buf[..])
  {
    fp.data := Overwrite(fp.data, fp.fptr, w);
    fp.fptr := fp.fptr + n;
    fp.objsize := if fp.fptr > fp.objsize then fp.fptr else fp.objsize;
  }

  /** Part of a sector, through the sector buffer. */
  method PutBytes(fs: Fatfs, fp: Fil, buff: array<Byte>, at: nat, n: nat)
    requires fp.Ready(fs) && OnSector(fs.vol, fp.View())
    requires 0 < n && fp.fptr % SS + n <= SS && fp.fptr + n < TWO32
    requires at + n <= buff.Length && buff != fp.buf
    modifies fp`fptr, fp`objsize, fp`data, fp`dirty, fp.buf
    ensures fp.Valid(fs)
    ensures fp.View() == AfterWrite(old(fp.View()), buff[at..at + n], true, fp.buf[..])
  {
    hide OnSector;
    hide Position;
    hide Fatfs.Logical;
    hide Mirrored;
    hide Sound;
    hide Core;
    VolumeBounds(fs.vol);
    CoreCapacity(fs.vol, fs.Logical(), fs.winsect, fp.View());
    ghost var f, w := fp.View(), buff[at..at + n];
    CopyIn(fp, fp.fptr % SS, buff, at, n);
    PatchStep(fs.vol, fs.Logical(), fs.winsect, f, w, fp.buf[..]);
    fp.dirty := true;
    Moved(fp, n, w);
  }

  /** Whole sectors, straight from the caller's buffer to the drive. */
  method PutSectors(fs: Fatfs, fp: Fil, buff: array<Byte>, at: nat, sect: nat, cc: nat) returns (ok: bool)
    requires fp.Ready(fs) && !fp.dirty && DirectAt(fs.vol, fp.View(), cc, sect) && fp.fptr + SS * cc < TWO32
    requires at + SS * cc <= buff.Length && buff != fp.buf
    modifies fp`fptr, fp`objsize, fp`data, fp`dirty, fp.buf, fs.disk
    ensures fs.Valid() && (old(fs.disk.failed) ==> fs.disk.failed)
    ensures !ok ==> fs.disk.failed
    ensures ok ==> fp.Valid(fs) && Frame(fs.vol, old(fs.Logical()), fs.Logical(), fp.chain, fp.chain)
    ensures ok ==> fp.View() == AfterWrite(old(fp.View()), buff[at..at + SS * cc], false, fp.buf[..])
    ensures fs.Fat() == old(fs.Fat())
  {
    hide DirectAt;
    hide FileSectors;
    hide Fatfs.Logical;
    hide Mirrored;
    hide Sound;
    hide Core;
    hide Frame;
    hide Position;
    VolumeBounds(fs.vol);
    ghost var f, img, w := fp.View(), fs.Logical(), buff[at..at + SS * cc];
    CoreCapacity(fs.vol, img, fs.winsect, f);
    DirectRange(fs.vol, img, fs.winsect, f, cc, sect);
    ok := WriteDataBlock(fs, buff, at, sect, cc);
    if !ok {
      return;
    }
    Refill(fp, buff, at, sect, cc);
    DirectStep(fs.vol, img, fs.Logical(), fs.winsect, f, cc, sect, w, fp.buf[..]);
    Moved(fp, SS * cc, w);
  }

  /** Bring the buffer up to date, if its sector is among those just written. */
  method Refill(fp: Fil, buff: array<Byte>, at: nat, sect: nat, cc: nat)
    requires fp.buf.Length == SS && at + SS * cc <= buff.Length && buff != fp.buf
    requires fp.sect < TWO32 && sect + cc < TWO32
    modifies fp.buf, fp`dirty
    ensures fp.buf[..] == if sect <= fp.sect < sect + cc then Chunk(buff[at..at + SS * cc], fp.sect - sect)
      else old(fp.buf[..])
    ensures fp.dirty ==> old(fp.dirty)
  {
    hide Sub32;
    Sub32IsRangeTest(fp.sect, sect, cc);
    var j := Sub32(fp.sect, sect);
    if j < cc {
      CopyIn(fp, 0, buff, at + SS * j, SS);
      fp.dirty := false;
      BlockOf(buff, at, cc, j);
    }
  }

  /** On a sector boundary, make the cluster of the position the current one. */
  method SettleCluster(fs: Fatfs, fp: Fil, csect: nat) returns (res: FResult, full: bool)
    requires fp.Valid(fs) && fp.fptr % SS == 0 && csect == SectorOffset(fs.vol, fp.fptr)
    modifies fp`sclust, fp`clust, fp`chain, fs`wflag, fs`winsect, fs`freeClst, fs`lastClst, fs`fsiFlag, fs.win, fs.disk
    ensures fs.Valid() && (old(fs.disk.failed) ==> fs.disk.failed)
    ensures res in {FR_OK, FR_INT_ERR, FR_DISK_ERR} && (res == FR_DISK_ERR ==> fs.disk.failed)
    ensures res == FR_INT_ERR ==> HasOne(old(fs.Fat()))
    ensures res == FR_OK && full ==> fp.Valid(fs) && fp.View() == old(fp.View()) && fs.Logical() == old(fs.Logical())
    ensures res == FR_OK && full ==> fp.fptr == fp.objsize
    ensures res == FR_OK && full && old(CountOk(fs)) ==> NoFree(fs.Fat())
    ensures res == FR_OK && !full ==>
      && fp.Ready(fs) && At(fs.vol, fp.View())
      && fp.View() == old(fp.View()).(sclust := fp.sclust, chain := fp.chain, clust := fp.clust)
      && old(fp.chain) <= fp.chain && Frame(fs.vol, old(fs.Logical()), fs.Logical(), old(fp.chain), fp.chain)
    ensures res == FR_OK && old(CountOk(fs)) ==> CountOk(fs)
    ensures WindowNearFat(fs.vol, old(fs.winsect), fs.winsect)
  {
    hide Table;
    hide Fatfs.Logical;
    hide Mirrored;
    hide Sound;
    hide Core;
    hide Frame;
    hide NoFree;
    hide HasOne;
    hide Zeros;
    hide Position;
    hide At;
    hide SectorOffset;
    hide OnBoundary;
    res, full := FR_OK, false;
    SectorOffsetIs(fs.vol, fp.fptr);
    FrameSame(fs.vol, fs.Logical(), fp.chain);
    if csect == 0 {
      var clst := NextToWrite(fs, fp);
      if clst == 0 { return FR_OK, true; }
      if clst == 1 { return FR_INT_ERR, false; }
      if clst == FAT_ERROR { return FR_DISK_ERR, false; }
    } else {
      StaysAt(fs, fp);
    }
  }

  /** At the start of a sector: settle the cluster, write back the buffer, and find the sector. */
  method StartSector(fs: Fatfs, fp: Fil) returns (res: FResult, full: bool, sect: nat)
    requires fp.Valid(fs) && fp.fptr % SS == 0
    modifies fp`sclust, fp`clust, fp`chain, fp`dirty, fs`wflag, fs`winsect, fs`freeClst, fs`lastClst, fs`fsiFlag,
        fs.win, fs.disk
    ensures fs.Valid() && (old(fs.disk.failed) ==> fs.disk.failed)
    ensures res in {FR_OK, FR_INT_ERR, FR_DISK_ERR} && (res == FR_DISK_ERR ==> fs.disk.failed)
    ensures res == FR_INT_ERR ==> HasOne(old(fs.Fat()))
    ensures res == FR_OK && full ==> fp.Valid(fs) && fp.View() == old(fp.View()) && fs.Logical() == old(fs.Logical())
    ensures res == FR_OK && full ==> fp.fptr == fp.objsize
    ensures res == FR_OK && full && old(CountOk(fs)) ==> NoFree(fs.Fat())
    ensures res == FR_OK && !full ==>
      && fp.Ready(fs) && SectorIs(fs.vol, fp.View(), sect)
      && fp.View() == old(fp.View()).(sclust := fp.sclust, chain := fp.chain, clust := fp.clust, dirty := false)
      && old(fp.chain) <= fp.chain && Frame(fs.vol, old(fs.Logical()), fs.Logical(), old(fp.chain), fp.chain)
    ensures res == FR_OK && old(CountOk(fs)) ==> CountOk(fs)
    ensures WindowNearFat(fs.vol, old(fs.winsect), fs.winsect)
  {
    hide FileSectors;
    hide Table;
    hide Fatfs.Logical;
    hide Mirrored;
    hide Sound;
    hide Core;
    hide Frame;
    hide NoFree;
    hide HasOne;
    hide Zeros;
    hide Position;
    hide SectorOffset;
    hide At;
    hide SectorIs;
    hide Clst2Sect;
    hide ClusterSector;
    VolumeBounds(fs.vol);
    ghost var img, chain := fs.Logical(), fp.chain;
    var csect := SectorOffset(fs.vol, fp.fptr);
    sect := 0;
    res, full := SettleCluster(fs, fp, csect);
    if res != FR_OK || full {
      return;
    }
    ghost var img1, f := fs.Logical(), fp.View();
    var ok := WriteBack(fs, fp);
    if !ok {
      res := FR_DISK_ERR;
      return;
    }
    AtDirty(fs.vol, f, fp.View());
    FrameTrans(fs.vol, img, img1, fs.Logical(), chain, fp.chain, fp.chain);
    AtSector(fs.vol, fs.Logical(), fs.winsect, fp.View());
    sect := Clst2Sect(fs.vol, fp.clust) + csect;
  }

  lemma AtDirty(v: Volume, f: FileView, g: FileView)
    requires v.csize > 0 && At(v, f) && g == f.(dirty := false)
    ensures At(v, g)
  {
  }

  /** Inside a cluster the current cluster stays. */
  lemma StaysAt(fs: Fatfs, fp: Fil)
    requires fp.Valid(fs) && fp.fptr % SS == 0 && !OnBoundary(fs.vol, fp.fptr)
    ensures At(fs.vol, fp.View())
  {
    CoreCapacity(fs.vol, fs.Logical(), fs.winsect, fp.View());
    InsideCapacity(fp.fptr, fs.vol.csize, |fp.chain|);
    PositionIsAt(fs.vol, fp.View());
  }

  /** A sector-aligned position inside a cluster is below the capacity of whole clusters. */
  lemma InsideCapacity(p: nat, csize: nat, n: nat)
    requires csize > 0 && p % SS == 0 && p / SS % csize != 0 && p <= SS * (n * csize)
    ensures p < SS * (n * csize)
  {
    if p == SS * (n * csize) {
      DivModUnique(p, SS, n * csize, 0);
      DivModUnique(n * csize, csize, n, 0);
    }
  }

  /** Bring the position's sector into the buffer, without reading it on the growing edge of the file. */
  method LoadToWrite(fs: Fatfs, fp: Fil, sect: nat) returns (ok: bool)
    requires fp.Ready(fs) && !fp.dirty && fp.fptr % SS == 0 && SectorIs(fs.vol, fp.View(), sect)
    modifies fp`sect, fp.buf, fs.disk`failed
    ensures fs.Valid() && (old(fs.disk.failed) ==> fs.disk.failed) && fs.Logical() == old(fs.Logical())
    ensures !ok ==> fs.disk.failed
    ensures ok ==> fp.Ready(fs) && OnSector(fs.vol, fp.View())
    ensures ok ==> fp.View() == old(fp.View()).(sect := sect, buf := fp.buf[..])
  {
    hide SectorIs;
    hide OnSector;
    hide Fatfs.Logical;
    hide Mirrored;
    hide Sound;
    hide Core;
    VolumeBounds(fs.vol);
    ghost var f, img := fp.View(), fs.Logical();
    SectorPlace(fs.vol, img, fs.winsect, f, sect);
    ok := true;
    if fp.sect != sect && fp.fptr < fp.objsize {
      ok := ReadData(fs, fp.buf, sect);
      if !ok {
        return;
      }
      LoadStep(fs.vol, img, fs.winsect, f, sect);
    } else {
      FreshStep(fs.vol, img, fs.winsect, f, sect);
    }
    fp.sect := sect;
  }

  /** The direct path of f_write: as many whole sectors as the data and the cluster allow. */
  method WriteDirect(fs: Fatfs, fp: Fil, buff: array<Byte>, at: nat, btw: nat, sect: nat)
    returns (res: FResult, wcnt: nat)
    requires fp.Ready(fs) && !fp.dirty && fp.fptr % SS == 0 && SectorIs(fs.vol, fp.View(), sect)
    requires SS <= btw && at + btw <= buff.Length && buff != fp.buf && fp.fptr + btw < TWO32
    modifies fp`fptr, fp`objsize, fp`data, fp`dirty, fp.buf, fs.disk
    ensures fs.Valid() && (old(fs.disk.failed) ==> fs.disk.failed)
    ensures res == FR_OK || (res == FR_DISK_ERR && fs.disk.failed)
    ensures res == FR_OK ==>
      0 < wcnt <= btw && fp.Valid(fs) && Frame(fs.vol, old(fs.Logical()), fs.Logical(), fp.chain, fp.chain)
    ensures res == FR_OK ==> fp.View() == AfterWrite(old(fp.View()), buff[at..at + wcnt], false, fp.buf[..])
    ensures fs.Fat() == old(fs.Fat())
  {
    hide SectorIs;
    hide Fatfs.Logical;
    hide Mirrored;
    hide Sound;
    hide Core;
    hide Frame;
    hide Position;
    hide Table;
    hide SectorOffset;
    VolumeBounds(fs.vol);
    CoreCapacity(fs.vol, fs.Logical(), fs.winsect, fp.View());
    DivModFacts(btw, SS);
    var cc := btw / SS;
    SectorOffsetIs(fs.vol, fp.fptr);
    var csect := SectorOffset(fs.vol, fp.fptr);
    if csect + cc > fs.vol.csize {
      cc := fs.vol.csize - csect;
    }
    wcnt := SS * cc;
    var ok := PutSectors(fs, fp, buff, at, sect, cc);
    res := if ok then FR_OK else FR_DISK_ERR;
  }

  /** One turn of the for loop of f_write: `wcnt` bytes transferred, or the disk is full. */
  method WriteStep(fs: Fatfs, fp: Fil, buff: array<Byte>, at: nat, btw: nat)
    returns (res: FResult, full: bool, wcnt: nat)
    requires fp.Valid(fs) && 0 < btw && at + btw <= buff.Length && buff != fp.buf && buff != fs.win
      && fp.fptr + btw < TWO32
    modifies fp`sclust, fp`objsize, fp`dirty, fp`fptr, fp`clust, fp`sect, fp`chain, fp`data, fp.buf
    modifies fs`wflag, fs`winsect, fs`freeClst, fs`lastClst, fs`fsiFlag, fs.win, fs.disk
    ensures fs.Valid() && (old(fs.disk.failed) ==> fs.disk.failed)
    ensures res in {FR_OK, FR_INT_ERR, FR_DISK_ERR} && (res == FR_DISK_ERR ==> fs.disk.failed)
    ensures res == FR_INT_ERR ==> HasOne(old(fs.Fat()))
    ensures res == FR_OK ==> fp.Valid(fs)
    ensures res == FR_OK && full ==> fp.View() == old(fp.View()) && fs.Logical() == old(fs.Logical())
    ensures res == FR_OK && full ==> fp.fptr == fp.objsize
    ensures res == FR_OK && full && old(CountOk(fs)) ==> NoFree(fs.Fat())
    ensures res == FR_OK && !full ==> 0 < wcnt <= btw
    ensures res == FR_OK && !full ==>
      Wrote(fs.vol, old(fs.Logical()), fs.Logical(), old(fp.View()), fp.View(), buff[at..at + wcnt])
    ensures res == FR_OK && old(CountOk(fs)) ==> CountOk(fs)
    ensures WindowNearFat(fs.vol, old(fs.winsect), fs.winsect)
  {
    hide SectorIs;
    hide OnSector;
    hide Fatfs.Logical;
    hide Mirrored;
    hide Sound;
    hide Core;
    hide Frame;
    hide Position;
    hide Table;
    hide NoFree;
    hide HasOne;
    hide Zeros;
    VolumeBounds(fs.vol);
    res, full, wcnt := FR_OK, false, 0;
    ghost var img, chain := fs.Logical(), fp.chain;
    FrameSame(fs.vol, img, chain);
    CoreCapacity(fs.vol, img, fs.winsect, fp.View());
    if fp.fptr % SS == 0 {
      var sect;
      res, full, sect := StartSector(fs, fp);
      if res != FR_OK || full {
        return;
      }
      if btw / SS > 0 {
        ghost var img1 := fs.Logical();
        res, wcnt := WriteDirect(fs, fp, buff, at, btw, sect);
        if res == FR_OK {
          FrameTrans(fs.vol, img, img1, fs.Logical(), chain, fp.chain, fp.chain);
        }
        return;
      }
      var ok := LoadToWrite(fs, fp, sect);
      if !ok {
        res := FR_DISK_ERR;
        return;
      }
    } else {
      MidSector(fs.vol, img, fs.winsect, fp.View());
    }
    wcnt := SS - fp.fptr % SS;
    if wcnt > btw {
      wcnt := btw;
    }
    PutBytes(fs, fp, buff, at, wcnt);
  }

  /** What f_write transfers of a request: all of it, or up to 4 GiB - 1 if the position would wrap around. */
  function Clipped(p: nat, btw: nat): nat
    requires p < TWO32
  {
    if (p + btw) % TWO32 < p then 0xFFFF_FFFF - p else btw
  }

  lemma ClippedBound(p: nat, btw: nat)
    requires p < TWO32 && btw < TWO32
    ensures Clipped(p, btw) == if p + btw <= 0xFFFF_FFFF then btw else 0xFFFF_FFFF - p
    ensures Clipped(p, btw) <= btw
  {
  }

  /** The for loop of f_write. */
  method WriteAll(fs: Fatfs, fp: Fil, buff: array<Byte>, btw: nat) returns (res: FResult, bw: nat)
    requires fp.Valid(fs) && btw <= buff.Length && buff != fp.buf && buff != fs.win && fp.fptr + btw < TWO32
    modifies fp`sclust, fp`objsize, fp`dirty, fp`fptr, fp`clust, fp`sect, fp`chain, fp`data, fp.buf
    modifies fs`wflag, fs`winsect, fs`freeClst, fs`lastClst, fs`fsiFlag, fs.win, fs.disk
    ensures fs.Valid() && (old(fs.disk.failed) ==> fs.disk.failed)
    ensures res in {FR_OK, FR_INT_ERR, FR_DISK_ERR} && (res == FR_DISK_ERR ==> fs.disk.failed)
    ensures res == FR_INT_ERR ==> HasOne(old(fs.Fat()))
    ensures res == FR_OK ==> fp.Valid(fs) && bw <= btw && (bw < btw ==> fp.fptr == fp.objsize)
    ensures res == FR_OK ==>
      Wrote(fs.vol, old(fs.Logical()), fs.Logical(), old(fp.View()), fp.View(), buff[..bw])
    ensures res == FR_OK && old(CountOk(fs)) ==> CountOk(fs) && (bw < btw ==> NoFree(fs.Fat()))
    ensures WindowNearFat(fs.vol, old(fs.winsect), fs.winsect)
  {
    hide Fatfs.Logical;
    hide Mirrored;
    hide Sound;
    hide Core;
    hide Position;
    hide Table;
    hide NoFree;
    hide HasOne;
    hide Zeros;
    hide Wrote;
    VolumeBounds(fs.vol);
    ghost var img, f := fs.Logical(), fp.View();
    CoreCapacity(fs.vol, img, fs.winsect, f);
    WroteNothing(fs.vol, img, f);
    res, bw := FR_OK, 0;
    assert buff[..0] == [];
    while bw < btw
      invariant bw <= btw && res == FR_OK && fp.Valid(fs) && (old(fs.disk.failed) ==> fs.disk.failed)
      invariant fp.fptr == f.fptr + bw
      invariant WindowNearFat(fs.vol, old(fs.winsect), fs.winsect)
      invariant Wrote(fs.vol, img, fs.Logical(), f, fp.View(), buff[..bw])
      invariant old(CountOk(fs)) ==> CountOk(fs)
      invariant HasOne(fs.Fat()) ==> HasOne(old(fs.Fat()))
    {
      ghost var img1, g := fs.Logical(), fp.View();
      var full, wcnt;
      res, full, wcnt := WriteStep(fs, fp, buff, bw, btw - bw);
      if res != FR_OK || full {
        return;
      }
      WroteNoNewOne(fs.vol, img1, fs.Logical(), fs.winsect, g, fp.View(), buff[bw..bw + wcnt]);
      WroteTrans(fs.vol, img, img1, fs.Logical(), f, g, fp.View(), buff[..bw], buff[bw..bw + wcnt]);
      assert buff[..bw] + buff[bw..bw + wcnt] == buff[..bw + wcnt];
      bw := bw + wcnt;
    }
  }

  method FWrite(fs: Fatfs, fp: Fil, buff: array<Byte>, btw: nat) returns (res: FResult, bw: nat)
    requires fp.Shape(fs) && fs.Valid() && (fp.err == FR_OK ==> fp.Valid(fs))
    requires btw <= buff.Length && btw < TWO32 && buff != fp.buf && buff != fs.win
    modifies fp, fp.buf, fs`wflag, fs`winsect, fs`freeClst, fs`lastClst, fs`fsiFlag, fs.win, fs.disk
    ensures fs.Valid() && (old(fs.disk.failed) ==> fs.disk.failed)
    ensures res == FR_OK ==> bw <= btw
    ensures old(fp.err) != FR_OK ==> res == old(fp.err) && bw == 0 && unchanged(fp, fp.buf, fs, fs.win, fs.disk)
    ensures old(fp.err) == FR_OK && !fp.canWrite ==>
      res == FR_DENIED && bw == 0 && unchanged(fp, fp.buf, fs, fs.win, fs.disk)
    ensures old(fp.err) == FR_OK && fp.canWrite ==>
      res in {FR_OK, FR_INT_ERR, FR_DISK_ERR} && fp.err == res && (res == FR_DISK_ERR ==> fs.disk.failed)
    ensures old(fp.err) == FR_OK && res == FR_INT_ERR ==> HasOne(old(fs.Fat()))
    ensures old(fp.err) == FR_OK && fp.canWrite && res == FR_OK ==>
      && fp.Valid(fs) && fp.modified && old(fp.fptr) < TWO32 && bw <= Clipped(old(fp.fptr), btw)
      && (bw < Clipped(old(fp.fptr), btw) ==> fp.fptr == fp.objsize)
      && Wrote(fs.vol, old(fs.Logical()), fs.Logical(), old(fp.View()), fp.View(), buff[..bw])
      && ShortOnlyIfFull(fs.vol, fs.Logical(), old(CountOk(fs)), bw, Clipped(old(fp.fptr), btw))
    ensures old(fp.err) == FR_OK && fp.canWrite && res == FR_OK ==>
      forall k :: 0 <= k < bw ==> ByteIs(fs.vol, fs.disk.image, fp.View(), old(fp.fptr) + k, buff[k])
    ensures old(fp.err) == FR_OK && res == FR_OK && old(CountOk(fs)) ==> CountOk(fs)
    ensures WindowNearFat(fs.vol, old(fs.winsect), fs.winsect)
  {
    hide Fatfs.Logical;
    hide Mirrored;
    hide Sound;
    hide Core;
    hide Position;
    hide Table;
    hide NoFree;
    hide HasOne;
    hide Zeros;
    hide Wrote;
    hide ByteIs;
    hide InPlace;
    bw := 0;
    if fp.err != FR_OK {
      return fp.err, 0;
    }
    if !fp.canWrite {
      return FR_DENIED, 0;
    }
    CoreCapacity(fs.vol, fs.Logical(), fs.winsect, fp.View());
    CoreSect(fs.vol, fs.Logical(), fs.winsect, fp.View());
    ghost var img, f := fs.Logical(), fp.View();
    ClippedBound(fp.fptr, btw);
    res, bw := WriteAll(fs, fp, buff, Clipped(fp.fptr, btw));
    if res != FR_OK {
      fp.err := res;
      return;
    }
    fp.modified := true;
    ViewInPlace(fs, fp);
    WrittenPlaces(fs.vol, fs.disk.image, img, fs.Logical(), f, fp.View(), buff[..bw]);
  }
}
