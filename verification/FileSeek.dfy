/** f_lseek: walk the chain to the new position, stretching it in write mode, and load the sector there. */
module FileSeek {
  import opened Arith
  import opened Bytes
  import opened Layout
  import opened Disk
  import opened Window
  import opened FatAccess
  import opened Chains
  import opened Alloc
  import opened FileData
  import opened DataIo
  import opened FileState
  import opened File
  import FR = FileRead

  /** Bytes per cluster. */
  function Bcs(v: Volume): int
  {
    SS * v.csize
  }

  /** The content after extending it to `n` bytes with bytes no one has specified. */
  function Extend(data: Content, n: nat): (r: Content)
    ensures |r| == if n > |data| then n else |data|
    ensures data <= r && forall i :: |data| <= i < |r| ==> r[i] == None
  {
    if n > |data| then data + seq(n - |data|, _ => None) else data
  }

  /** A position `ofs` bytes into cluster `k` of the chain, at most to its end. */
  predicate Lands(v: Volume, f: FileView, k: nat, ofs: nat, pos: nat)
  {
    k < |f.chain| && 0 < ofs <= Bcs(v) && pos == Bcs(v) * k + ofs
  }

  /** Sector indices `ofs` bytes past sector boundary `x`. */
  lemma PastBoundary(x: nat, ofs: nat, c: nat)
    requires 0 < ofs <= SS * c
    ensures (SS * x + ofs - 1) / SS == x + (ofs - 1) / SS && (ofs - 1) / SS < c
    ensures (SS * x + ofs) % SS == ofs % SS
    ensures ofs % SS != 0 ==> (SS * x + ofs) / SS == x + ofs / SS && ofs / SS < c
  {
    DivModFacts(ofs - 1, SS);
    DivModUnique(SS * x + ofs - 1, SS, x + (ofs - 1) / SS, (ofs - 1) % SS);
    DivModFacts(ofs, SS);
    DivModUnique(SS * x + ofs, SS, x + ofs / SS, ofs % SS);
  }

  /** Where a position lies that a cluster walk has reached. */
  lemma LandsAt(v: Volume, f: FileView, k: nat, ofs: nat, pos: nat)
    requires v.csize > 0 && Lands(v, f, k, ofs, pos)
    ensures (pos - 1) / SS / v.csize == k && pos <= SS * (|f.chain| * v.csize)
    ensures pos % SS == ofs % SS
    ensures ofs % SS != 0 ==> pos / SS < |f.chain| * v.csize
    ensures ofs % SS != 0 ==> FileSectors(v, f.chain)[pos / SS] == ClusterSector(v, f.chain[k]) + ofs / SS
  {
    hide FileSectors;
    hide ClusterSector;
    var x := v.csize * k;
    MulMono(v.csize, 0, k);
    assert Bcs(v) * k == SS * x;
    PastBoundary(x, ofs, v.csize);
    LandsSector(v, f, k, (ofs - 1) / SS);
    if ofs % SS != 0 {
      LandsSector(v, f, k, ofs / SS);
    }
    MulStep(v.csize, k, |f.chain|);
  }

  /** Sector `r` of cluster `k`. */
  lemma LandsSector(v: Volume, f: FileView, k: nat, r: nat)
    requires k < |f.chain| && r < v.csize
    ensures (v.csize * k + r) / v.csize == k && v.csize * k + r < |f.chain| * v.csize
    ensures FileSectors(v, f.chain)[v.csize * k + r] == ClusterSector(v, f.chain[k]) + r
  {
    hide FileSectors;
    MulMono(v.csize, 0, k);
    DivModUnique(v.csize * k + r, v.csize, k, r);
    MulStep(v.csize, k, |f.chain|);
    SectorInCluster(v, f.chain, v.csize * k + r);
  }

  /** `(p - 1) & ~(bcs - 1)`: the start of the cluster holding byte p - 1. */
  function ClusterStart(v: Volume, p: nat): int
    requires v.csize > 0 && p > 0
  {
    p - 1 - And(p - 1, Bcs(v) - 1)
  }

  lemma ClusterStartIs(v: Volume, p: nat)
    requires Sound(v) && p > 0
    ensures Bcs(v) > 0 && ClusterStart(v, p) == Bcs(v) * ((p - 1) / Bcs(v))
    ensures (p - 1) / Bcs(v) == (p - 1) / SS / v.csize
  {
    ClusterBytesPow2(v.csize);
    MaskIsRemainder(p - 1, Bcs(v));
    DivModFacts(p - 1, Bcs(v));
    DivDiv(p - 1, SS, v.csize);
  }

  /** The walk stands at element `k` of the chain, which starts at `fptr`. */
  ghost predicate Walking(v: Volume, f: FileView, k: nat, clst: nat, fptr: int)
  {
    k < |f.chain| && clst == f.chain[k] && f.clust == clst && fptr == Bcs(v) * k
  }

  /** A later position in the same or a following cluster is past the start of the current one. */
  lemma StartNear(v: Volume, ofs: nat, ifptr: nat)
    requires Sound(v) && ofs > 0 && ifptr > 0 && Bcs(v) > 0 && (ofs - 1) / Bcs(v) >= (ifptr - 1) / Bcs(v)
    ensures 0 <= ClusterStart(v, ifptr) < ofs
  {
    hide ClusterStart;
    hide Bcs;
    ClusterStartIs(v, ifptr);
    BlockStartBelow(Bcs(v), ofs - 1, ifptr - 1);
  }

  /** The invariant survives rewinding the position. */
  lemma CoreRewind(v: Volume, img: Image, ws: nat, f: FileView)
    requires Fits(v, img) && Core(v, img, ws, f)
    ensures Core(v, img, ws, f.(fptr := 0))
  {
  }

  /** Where the walk starts: the current cluster when seeking to it or beyond it, else the first one, created if there
      is none. */
  method SeekStart(fs: Fatfs, fp: Fil, target: nat) returns (res: FResult, clst: nat, fptr: nat, ofs: nat, ghost k: nat)
    requires fp.Valid(fs) && 0 < target < TWO32
    modifies fp`fptr, fp`sclust, fp`clust, fp`chain, fs`wflag, fs`winsect, fs`freeClst, fs`lastClst, fs`fsiFlag, fs.win,
        fs.disk
    ensures fs.Valid() && (old(fs.disk.failed) ==> fs.disk.failed)
    ensures res in {FR_OK, FR_INT_ERR, FR_DISK_ERR} && (res == FR_DISK_ERR ==> fs.disk.failed)
    ensures res == FR_INT_ERR ==> HasOne(old(fs.Fat()))
    ensures res == FR_OK ==>
      && fp.Ready(fs) && old(fp.chain) <= fp.chain
      && fp.View() == old(fp.View()).(fptr := 0, sclust := fp.sclust, clust := fp.clust, chain := fp.chain)
      && Frame(fs.vol, old(fs.Logical()), fs.Logical(), old(fp.chain), fp.chain)
    ensures res == FR_OK && clst == 0 ==> fp.chain == [] && (old(CountOk(fs)) ==> NoFree(fs.Fat()))
    ensures res == FR_OK && fp.chain != old(fp.chain) ==> old(fp.chain) == []
    ensures res == FR_OK && clst != 0 ==> Walking(fs.vol, fp.View(), k, clst, fptr) && 0 < ofs && fptr + ofs == target
    ensures res == FR_OK && old(CountOk(fs)) ==> CountOk(fs)
    ensures WindowNearFat(fs.vol, old(fs.winsect), fs.winsect)
    ensures res == FR_OK && fp.chain == old(fp.chain) ==> (fs.wflag ==> old(fs.wflag))
  {
    hide FileSectors;
    hide Table;
    hide Fatfs.Logical;
    hide Mirrored;
    hide Core;
    hide Frame;
    hide NoFree;
    hide HasOne;
    hide Zeros;
    hide ClusterStart;
    hide Sound;
    VolumeBounds(fs.vol);
    ghost var img, f := fs.Logical(), fp.View();
    CoreCapacity(fs.vol, img, fs.winsect, f);
    CoreStart(fs.vol, img, fs.winsect, f);
    CoreRewind(fs.vol, img, fs.winsect, f);
    FrameSame(fs.vol, img, fp.chain);
    res, clst, fptr, ofs, k := FR_OK, 0, 0, target, 0;
    var ifptr := fp.fptr;
    fp.fptr := 0;
    var bcs := Bcs(fs.vol);
    if ifptr > 0 && (target - 1) / bcs >= (ifptr - 1) / bcs {
      StartNear(fs.vol, target, ifptr);
      ClusterStartIs(fs.vol, ifptr);
      fptr := ClusterStart(fs.vol, ifptr);
      ofs := target - fptr;
      clst := fp.clust;
      k := (ifptr - 1) / SS / fs.vol.csize;
      ChainPositive(fs.vol, img, fs.winsect, f, k);
    } else {
      clst := fp.sclust;
      if clst == 0 {
        clst := Stretch(fs, fp, 0, 0);
        if clst == 1 { res := FR_INT_ERR; return; }
        if clst == FAT_ERROR { res := FR_DISK_ERR; return; }
      }
      CoreClust(fs.vol, fs.Logical(), fs.winsect, fp.View(), clst);
      fp.clust := clst;
    }
  }

  lemma ChainPositive(v: Volume, img: Image, ws: nat, f: FileView, k: nat)
    requires Fits(v, img) && Core(v, img, ws, f) && k < |f.chain|
    ensures f.chain[k] != 0
  {
  }

  /** One link of the cluster following loop: stretch in write mode, else just follow. */
  method SeekNext(fs: Fatfs, fp: Fil, clst: nat, ghost k: nat) returns (res: FResult, nxt: nat)
    requires fp.Ready(fs) && k < |fp.chain| && clst == fp.chain[k] == fp.clust && (!fp.canWrite ==> k + 1 < |fp.chain|)
    modifies fp`sclust, fp`clust, fp`chain, fs`wflag, fs`winsect, fs`freeClst, fs`lastClst, fs`fsiFlag, fs.win, fs.disk
    ensures fs.Valid() && (old(fs.disk.failed) ==> fs.disk.failed)
    ensures res in {FR_OK, FR_INT_ERR, FR_DISK_ERR} && (res == FR_DISK_ERR ==> fs.disk.failed)
    ensures res == FR_INT_ERR ==> HasOne(old(fs.Fat()))
    ensures res == FR_OK ==>
      && fp.Ready(fs) && old(fp.chain) <= fp.chain
      && fp.View() == old(fp.View()).(sclust := fp.sclust, clust := fp.clust, chain := fp.chain)
      && Frame(fs.vol, old(fs.Logical()), fs.Logical(), old(fp.chain), fp.chain)
    ensures res == FR_OK && nxt == 0 ==>
      fp.View() == old(fp.View()) && |fp.chain| == k + 1 && (old(CountOk(fs)) ==> NoFree(fs.Fat()))
    ensures res == FR_OK && nxt != 0 ==> k + 1 < |fp.chain| && nxt == fp.chain[k + 1] == fp.clust
    ensures res == FR_OK && fp.chain != old(fp.chain) ==> k + 1 == |old(fp.chain)|
    ensures res == FR_OK && old(CountOk(fs)) ==> CountOk(fs)
    ensures WindowNearFat(fs.vol, old(fs.winsect), fs.winsect)
    ensures res == FR_OK && fp.chain == old(fp.chain) ==> (fs.wflag ==> old(fs.wflag))
  {
    hide FileSectors;
    hide Table;
    hide Fatfs.Logical;
    hide Mirrored;
    hide Core;
    hide Frame;
    hide NoFree;
    hide HasOne;
    hide Zeros;
    hide Sound;
    VolumeBounds(fs.vol);
    ghost var img, ws, f := fs.Logical(), fs.winsect, fp.View();
    FrameSame(fs.vol, img, fp.chain);
    res := FR_OK;
    if fp.canWrite {
      nxt := Stretch(fs, fp, k + 1, clst);
      if nxt == 0 { return; }
      if nxt > 1 && nxt != FAT_ERROR {
        FR.ChainLink(fs.vol, fs.Logical(), fs.winsect, fp.View(), k + 1);
      }
    } else {
      FR.ChainLink(fs.vol, img, ws, f, k + 1);
      nxt := GetFat(fs, clst);
      CoreWindow(fs.vol, img, ws, fs.winsect, f);
    }
    if nxt == FAT_ERROR { res := FR_DISK_ERR; return; }
    if nxt <= 1 || nxt >= fs.vol.nFatent { res := FR_INT_ERR; return; }
    CoreClust(fs.vol, fs.Logical(), fs.winsect, fp.View(), nxt);
    fp.clust := nxt;
  }

  /** The cluster following loop. On a full volume it stops at the end of the chain. */
  method SeekWalk(fs: Fatfs, fp: Fil, clst0: nat, fptr0: nat, ofs0: nat, ghost k0: nat)
      returns (res: FResult, clst: nat, fptr: nat, ofs: nat, ghost k: nat)
    requires fp.Ready(fs) && Walking(fs.vol, fp.View(), k0, clst0, fptr0) && 0 < ofs0
    requires !fp.canWrite ==> fptr0 + ofs0 <= fp.objsize
    modifies fp`sclust, fp`clust, fp`chain, fs`wflag, fs`winsect, fs`freeClst, fs`lastClst, fs`fsiFlag, fs.win, fs.disk
    ensures fs.Valid() && (old(fs.disk.failed) ==> fs.disk.failed)
    ensures res in {FR_OK, FR_INT_ERR, FR_DISK_ERR} && (res == FR_DISK_ERR ==> fs.disk.failed)
    ensures res == FR_INT_ERR ==> HasOne(old(fs.Fat()))
    ensures res == FR_OK ==>
      && fp.Ready(fs) && old(fp.chain) <= fp.chain
      && fp.View() == old(fp.View()).(sclust := fp.sclust, clust := fp.clust, chain := fp.chain)
      && Frame(fs.vol, old(fs.Logical()), fs.Logical(), old(fp.chain), fp.chain)
    ensures res == FR_OK && clst == 0 ==> ofs == 0 && fptr < fptr0 + ofs0
    ensures res == FR_OK && clst == 0 ==>
      k + 1 == |fp.chain| && Lands(fs.vol, fp.View(), k, Bcs(fs.vol), fptr) && fp.clust == fp.chain[k]
    ensures res == FR_OK && clst == 0 && old(CountOk(fs)) ==> NoFree(fs.Fat())
    ensures res == FR_OK && clst != 0 ==> Walking(fs.vol, fp.View(), k, clst, fptr) && fptr + ofs == fptr0 + ofs0
    ensures res == FR_OK && clst != 0 ==> 0 < ofs <= Bcs(fs.vol)
    ensures res == FR_OK && fp.chain != old(fp.chain) ==> fptr + ofs > Bcs(fs.vol) * |old(fp.chain)|
    ensures res == FR_OK && old(CountOk(fs)) ==> CountOk(fs)
    ensures WindowNearFat(fs.vol, old(fs.winsect), fs.winsect)
    ensures res == FR_OK && fp.chain == old(fp.chain) ==> (fs.wflag ==> old(fs.wflag))
  {
    hide FileSectors;
    hide Table;
    hide Fatfs.Logical;
    hide Mirrored;
    hide Core;
    hide Frame;
    hide NoFree;
    hide HasOne;
    hide Zeros;
    hide Sound;
    VolumeBounds(fs.vol);
    ghost var img, chain := fs.Logical(), fp.chain;
    FrameSame(fs.vol, img, chain);
    var bcs := Bcs(fs.vol);
    res, clst, fptr, ofs, k := FR_OK, clst0, fptr0, ofs0, k0;
    ChainPositive(fs.vol, img, fs.winsect, fp.View(), k);
    while ofs > bcs
      invariant res == FR_OK && fp.Ready(fs) && (old(fs.disk.failed) ==> fs.disk.failed)
      invariant chain <= fp.chain && Frame(fs.vol, img, fs.Logical(), chain, fp.chain)
      invariant fp.View() == old(fp.View()).(sclust := fp.sclust, clust := fp.clust, chain := fp.chain)
      invariant Walking(fs.vol, fp.View(), k, clst, fptr) && clst != 0 && 0 < ofs && fptr + ofs == fptr0 + ofs0
      invariant old(CountOk(fs)) ==> CountOk(fs)
      invariant WindowNearFat(fs.vol, old(fs.winsect), fs.winsect)
      invariant HasOne(fs.Fat()) ==> HasOne(old(fs.Fat()))
      invariant fp.chain == chain ==> (fs.wflag ==> old(fs.wflag))
      invariant fp.chain != chain ==> fptr >= Bcs(fs.vol) * |chain|
      decreases ofs
    {
      ghost var img1, chain1 := fs.Logical(), fp.chain;
      EnoughClusters(fs.vol, fs.Logical(), fs.winsect, fp.View(), k, fptr, ofs);
      ofs, fptr := ofs - bcs, fptr + bcs;
      var nxt;
      res, nxt := SeekNext(fs, fp, clst, k);
      if res != FR_OK {
        return;
      }
      CoreNoNewOne(fs.vol, img1, fs.Logical(), fs.winsect, chain1, fp.View());
      FrameTrans(fs.vol, img, img1, fs.Logical(), chain, chain1, fp.chain);
      clst := nxt;
      if clst == 0 {
        ofs := 0;
        return;
      }
      k := k + 1;
    }
  }

  lemma CoreNoNewOne(v: Volume, a: Image, b: Image, ws: nat, before: seq<nat>, g: FileView)
    requires Fits(v, a) && Fits(v, b) && Frame(v, a, b, before, g.chain) && before <= g.chain && Core(v, b, ws, g)
    ensures HasOne(Table(v, b)) ==> HasOne(Table(v, a))
  {
    hide Table;
    hide FileSectors;
    hide Holds;
    hide Frame;
    hide HasOne;
    NoNewOne(v, a, b, before, g.sclust, g.chain);
  }

  /** A read-only walk never leaves the chain. */
  lemma EnoughClusters(v: Volume, img: Image, ws: nat, f: FileView, k: nat, fptr: nat, ofs: nat)
    requires Fits(v, img) && Core(v, img, ws, f) && k < |f.chain| && fptr == Bcs(v) * k && ofs > Bcs(v)
    ensures fptr + ofs <= f.objsize ==> k + 1 < |f.chain|
  {
    hide Core;
    hide Sound;
    CoreCapacity(v, img, ws, f);
    if k + 1 == |f.chain| {
      LastCluster(v.csize, k, |f.chain|);
    }
  }

  /** The end of the last cluster is the capacity of the chain. */
  lemma LastCluster(csize: nat, k: nat, n: nat)
    requires k + 1 == n
    ensures SS * csize * k + SS * csize == SS * (n * csize)
  {
  }

  /** The current cluster holds the byte before the landing position, and mid-sector the position's sector is in it. */
  lemma Landed(v: Volume, f: FileView, k: nat, ofs: nat)
    requires v.csize > 0 && Lands(v, f, k, ofs, f.fptr) && f.clust == f.chain[k]
    ensures f.fptr <= SS * (|f.chain| * v.csize) && f.fptr % SS == ofs % SS
    ensures f.fptr % SS == 0 ==> Position(v, f)
    ensures f.fptr % SS != 0 ==> SectorIs(v, f, ClusterSector(v, f.clust) + ofs / SS)
  {
    hide FileSectors;
    hide Lands;
    LandsAt(v, f, k, ofs, f.fptr);
    if f.fptr % SS == 0 {
      LandsInside(v, f, k, ofs);
    } else {
      LandsInside(v, f, k, ofs);
      SameSector(f.fptr);
    }
  }

  lemma LandsInside(v: Volume, f: FileView, k: nat, ofs: nat)
    requires Lands(v, f, k, ofs, f.fptr)
    ensures k < |f.chain|
  {
  }

  lemma SameSector(p: nat)
    requires p % SS != 0
    ensures p > 0 && (p - 1) / SS == p / SS
  {
    DivModFacts(p, SS);
    DivModUnique(p - 1, SS, p / SS, p % SS - 1);
  }

  /** Mid-sector, a buffer on the position's sector is all the position clauses ask for. */
  lemma OnSectorIsPosition(v: Volume, f: FileView)
    requires v.csize > 0 && OnSector(v, f) && f.fptr % SS != 0
    ensures Position(v, f)
  {
    SameSector(f.fptr);
  }

  /** The file after its position has been set, growing it if need be. */
  function Moved(f: FileView, pos: nat): FileView
  {
    f.(fptr := pos, data := Extend(f.data, pos), objsize := |Extend(f.data, pos)|)
  }

  /** A position within the chain's capacity may be set, growing the file. */
  lemma CoreMoved(v: Volume, img: Image, ws: nat, f: FileView, pos: nat)
    requires Fits(v, img) && Core(v, img, ws, f) && pos <= SS * (|f.chain| * v.csize) && pos < TWO32
    ensures Core(v, img, ws, Moved(f, pos))
  {
    hide FileSectors;
    hide Table;
    var d := Extend(f.data, pos);
    var secs := FileSectors(v, f.chain);
    forall i | 0 <= i < |d| && d[i].Some?
      ensures i < |f.data| && d[i] == f.data[i]
    {
    }
    HoldsResize(img, secs, f.data, f.sect, f.dirty, f.buf, secs, d);
  }

  /** From `f` on image `a` to `g` on image `b`: the position was set, the content extended to it where it lies beyond
      the end. */
  ghost predicate Sought(v: Volume, a: Image, b: Image, f: FileView, g: FileView)
  {
    && Fits(v, a) && Fits(v, b)
    && g.data == Extend(f.data, g.fptr)
    && f.chain <= g.chain
    && (g.chain != f.chain ==> |f.data| < g.fptr)
    && (g.dirty ==> f.dirty)
    && Frame(v, a, b, f.chain, g.chain)
  }

  /** The position fell short of the target only at the end of the chain of a full volume. */
  ghost predicate StoppedOnlyIfFull(v: Volume, img: Image, g: FileView, exact: bool, target: nat)
    requires Fits(v, img)
  {
    && g.fptr <= target
    && (g.fptr < target ==> g.fptr == SS * (|g.chain| * v.csize) && (exact ==> NoFree(Table(v, img))))
  }

  /** Where a walk stopped by a full volume stands. */
  lemma StoppedAtEnd(v: Volume, f: FileView, k: nat, pos: nat)
    requires k + 1 == |f.chain| && Lands(v, f, k, Bcs(v), pos)
    ensures pos == SS * (|f.chain| * v.csize)
  {
    LastCluster(v.csize, k, |f.chain|);
  }

  /** Bring the buffer to the sector of a position inside one. */
  method FillSector(fs: Fatfs, fp: Fil, nsect: nat) returns (ok: bool)
    requires fp.Ready(fs) && fp.fptr % SS != 0 && SectorIs(fs.vol, fp.View(), nsect)
    modifies fp`sect, fp`dirty, fp.buf, fs.disk
    ensures fs.Valid() && (old(fs.disk.failed) ==> fs.disk.failed)
    ensures !ok ==> fs.disk.failed
    ensures ok ==> fp.Valid(fs)
    ensures ok ==> fp.View() == old(fp.View()).(sect := nsect, dirty := fp.dirty, buf := fp.buf[..])
    ensures ok && fp.dirty ==> old(fp.dirty)
    ensures ok ==> Frame(fs.vol, old(fs.Logical()), fs.Logical(), fp.chain, fp.chain)
    ensures fs.Fat() == old(fs.Fat())
  {
    hide SectorIs;
    hide OnSector;
    hide Fatfs.Logical;
    hide Mirrored;
    hide Sound;
    hide Core;
    hide Position;
    hide Frame;
    hide Table;
    VolumeBounds(fs.vol);
    ok := FR.LoadToRead(fs, fp, nsect);
    if ok {
      OnSectorIsPosition(fs.vol, fp.View());
    }
  }

  /** The last part of f_lseek: set the position, the size if it grows, and fill the sector buffer mid-sector. */
  method SeekFinish(fs: Fatfs, fp: Fil, pos: nat, ghost k: nat, ofs: nat) returns (ok: bool)
    requires fp.Ready(fs) && Lands(fs.vol, fp.View(), k, ofs, pos) && fp.clust == fp.chain[k] && pos < TWO32
    modifies fp`fptr, fp`objsize, fp`data, fp`modified, fp`sect, fp`dirty, fp.buf, fs.disk
    ensures fs.Valid() && (old(fs.disk.failed) ==> fs.disk.failed)
    ensures !ok ==> fs.disk.failed
    ensures ok ==> fp.Valid(fs) && fp.fptr == pos
    ensures ok ==> Sought(fs.vol, old(fs.Logical()), fs.Logical(), old(fp.View()), fp.View())
    ensures fp.modified == (old(fp.modified) || pos > old(fp.objsize))
    ensures fp.sclust == old(fp.sclust) && fp.chain == old(fp.chain)
    ensures fs.Fat() == old(fs.Fat())
  {
    hide SectorIs;
    hide Fatfs.Logical;
    hide Mirrored;
    hide Sound;
    hide Core;
    hide Position;
    hide Frame;
    hide Table;
    hide Lands;
    hide ClusterSector;
    VolumeBounds(fs.vol);
    ghost var img, f := fs.Logical(), fp.View();
    var g := Moved(f, pos);
    LandsMoved(fs.vol, f, g, k, ofs);
    Landed(fs.vol, g, k, ofs);
    CoreMoved(fs.vol, img, fs.winsect, f, pos);
    CoreCapacity(fs.vol, img, fs.winsect, f);
    FrameSame(fs.vol, img, fp.chain);
    ok := true;
    fp.fptr := pos;
    fp.data := Extend(fp.data, pos);
    if pos > fp.objsize {
      fp.objsize := pos;
      fp.modified := true;
    }
    assert fp.View() == g;
    if pos % SS != 0 {
      ClustPlace(fs.vol, img, fs.winsect, f, k);
      var nsect := Clst2Sect(fs.vol, fp.clust) + ofs / SS;
      ok := FillSector(fs, fp, nsect);
    }
  }

  lemma LandsMoved(v: Volume, f: FileView, g: FileView, k: nat, ofs: nat)
    requires Lands(v, f, k, ofs, g.fptr) && g.chain == f.chain
    ensures Lands(v, g, k, ofs, g.fptr) && k < |f.chain|
  {
  }

  lemma ClustPlace(v: Volume, img: Image, ws: nat, f: FileView, k: nat)
    requires Fits(v, img) && Core(v, img, ws, f) && k < |f.chain|
    ensures 2 <= f.chain[k] < v.nFatent && Clst2Sect(v, f.chain[k]) == ClusterSector(v, f.chain[k]) > 0
  {
    hide Core;
    hide ClusterSector;
    FR.ChainLink(v, img, ws, f, k);
    ChainNear(v, f.chain[k]);
  }

  lemma ChainNear(v: Volume, c: nat)
    requires Sound(v) && 2 <= c < v.nFatent
    ensures Clst2Sect(v, c) == ClusterSector(v, c) > 0
  {
    hide Clst2Sect;
    FirstSector(v, c);
  }

  lemma FirstSector(v: Volume, c: nat)
    requires Sound(v) && 2 <= c < v.nFatent
    ensures ClusterSector(v, c) > 0
  {
    MulMono(v.csize, 0, c - 2);
  }

  /** From a rewound position with a current cluster, walk to the target and settle there. */
  method SeekFrom(fs: Fatfs, fp: Fil, clst0: nat, fptr0: nat, ofs0: nat, ghost k0: nat) returns (res: FResult)
    requires fp.Ready(fs) && Walking(fs.vol, fp.View(), k0, clst0, fptr0) && 0 < ofs0 && fptr0 + ofs0 < TWO32
    requires !fp.canWrite ==> fptr0 + ofs0 <= fp.objsize
    modifies fp`sclust, fp`clust, fp`chain, fp`fptr, fp`objsize, fp`data, fp`modified, fp`sect, fp`dirty, fp.buf
    modifies fs`wflag, fs`winsect, fs`freeClst, fs`lastClst, fs`fsiFlag, fs.win, fs.disk
    ensures fs.Valid() && (old(fs.disk.failed) ==> fs.disk.failed)
    ensures res in {FR_OK, FR_INT_ERR, FR_DISK_ERR} && (res == FR_DISK_ERR ==> fs.disk.failed)
    ensures res == FR_INT_ERR ==> HasOne(old(fs.Fat()))
    ensures res == FR_OK ==> fp.Valid(fs)
    ensures res == FR_OK ==> Sought(fs.vol, old(fs.Logical()), fs.Logical(), old(fp.View()), fp.View())
    ensures res == FR_OK ==> StoppedOnlyIfFull(fs.vol, fs.Logical(), fp.View(), old(CountOk(fs)), fptr0 + ofs0)
    ensures res == FR_OK ==> fp.modified == (old(fp.modified) || fp.fptr > old(fp.objsize))
    ensures res == FR_OK && old(CountOk(fs)) ==> CountOk(fs)
    ensures WindowNearFat(fs.vol, old(fs.winsect), fs.winsect)
    ensures res == FR_OK && fp.chain == old(fp.chain) ==> (fs.wflag ==> old(fs.wflag))
  {
    hide SectorIs;
    hide Fatfs.Logical;
    hide Mirrored;
    hide Sound;
    hide Core;
    hide Position;
    hide Frame;
    hide Table;
    hide NoFree;
    hide HasOne;
    hide Zeros;
    hide ClusterSector;
    VolumeBounds(fs.vol);
    ghost var img, f := fs.Logical(), fp.View();
    var clst, fptr, ofs;
    ghost var k;
    res, clst, fptr, ofs, k := SeekWalk(fs, fp, clst0, fptr0, ofs0, k0);
    if res != FR_OK {
      return;
    }
    ghost var img1, g := fs.Logical(), fp.View();
    if clst == 0 {
      StoppedAtEnd(fs.vol, g, k, fptr);
    }
    PastEnd(fs.vol, img, old(fs.winsect), f, fptr + ofs);
    var ok := SeekFinish(fs, fp, fptr + ofs, k, if clst == 0 then Bcs(fs.vol) else ofs);
    if !ok {
      res := FR_DISK_ERR;
      return;
    }
    FrameTrans(fs.vol, img, img1, fs.Logical(), f.chain, g.chain, g.chain);
  }

  /** Beyond the clusters of a chain is beyond the end of its file. */
  lemma PastEnd(v: Volume, img: Image, ws: nat, f: FileView, pos: nat)
    requires Fits(v, img) && Core(v, img, ws, f)
    ensures pos > Bcs(v) * |f.chain| ==> pos > |f.data|
  {
    hide Core;
    hide Sound;
    CoreCapacity(v, img, ws, f);
    assert SS * v.csize * |f.chain| == SS * (|f.chain| * v.csize);
  }

  method FLseek(fs: Fatfs, fp: Fil, ofs: nat) returns (res: FResult)
    requires fp.Shape(fs) && fs.Valid() && (fp.err == FR_OK ==> fp.Valid(fs)) && ofs < TWO32
    modifies fp, fp.buf, fs`wflag, fs`winsect, fs`freeClst, fs`lastClst, fs`fsiFlag, fs.win, fs.disk
    ensures fs.Valid() && (old(fs.disk.failed) ==> fs.disk.failed)
    ensures old(fp.err) != FR_OK ==> res == old(fp.err) && unchanged(fp, fp.buf, fs, fs.win, fs.disk)
    ensures old(fp.err) == FR_OK ==>
      res in {FR_OK, FR_INT_ERR, FR_DISK_ERR} && fp.err == res && (res == FR_DISK_ERR ==> fs.disk.failed)
    ensures old(fp.err) == FR_OK && res == FR_INT_ERR ==> HasOne(old(fs.Fat()))
    ensures res == FR_OK ==>
      && fp.Valid(fs)
      && Sought(fs.vol, old(fs.Logical()), fs.Logical(), old(fp.View()), fp.View())
      && StoppedOnlyIfFull(fs.vol, fs.Logical(), fp.View(), old(CountOk(fs)),
                           if ofs > old(fp.objsize) && !fp.canWrite then old(fp.objsize) else ofs)
      && fp.modified == (old(fp.modified) || fp.fptr > old(fp.objsize))
    ensures res == FR_OK && old(CountOk(fs)) ==> CountOk(fs)
    ensures WindowNearFat(fs.vol, old(fs.winsect), fs.winsect)
    ensures res == FR_OK ==> (fs.wflag ==> old(fs.wflag) || fp.modified)
  {
    hide Fatfs.Logical;
    hide Mirrored;
    hide Sound;
    hide Core;
    hide Position;
    hide Frame;
    hide Table;
    hide NoFree;
    hide HasOne;
    hide Zeros;
    VolumeBounds(fs.vol);
    if fp.err != FR_OK {
      return fp.err;
    }
    ghost var img, f := fs.Logical(), fp.View();
    CoreCapacity(fs.vol, img, fs.winsect, f);
    CoreSect(fs.vol, img, fs.winsect, f);
    FrameSame(fs.vol, img, f.chain);
    var target := ofs;
    if ofs > fp.objsize && !fp.canWrite {
      target := fp.objsize;
    }
    if target == 0 {
      CoreRewind(fs.vol, img, fs.winsect, f);
      RewoundPosition(fs.vol, f);
      fp.fptr := 0;
      return FR_OK;
    }
    var clst, fptr, rest;
    ghost var k;
    res, clst, fptr, rest, k := SeekStart(fs, fp, target);
    if res != FR_OK {
      fp.err := res;
      return;
    }
    ghost var img1, g := fs.Logical(), fp.View();
    CoreNoNewOne(fs.vol, img, img1, fs.winsect, f.chain, g);
    if clst == 0 {
      RewoundPosition(fs.vol, g);
      return;
    }
    res := SeekFrom(fs, fp, clst, fptr, rest, k);
    if res != FR_OK {
      fp.err := res;
      return;
    }
    FrameTrans(fs.vol, img, img1, fs.Logical(), f.chain, g.chain, fp.chain);
  }

  lemma RewoundPosition(v: Volume, f: FileView)
    requires v.csize > 0
    ensures Position(v, f.(fptr := 0))
  {
  }
}
