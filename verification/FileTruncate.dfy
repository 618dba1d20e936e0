/** f_truncate: cut the file at the position and free the clusters behind it. */
module FileTruncate {
  import opened Arith
  import opened Bytes
  import opened FatCodec
  import opened Layout
  import opened Disk
  import opened Window
  import opened FatAccess
  import opened Chains
  import opened Alloc
  import opened FileData
  import opened DataIo
  import opened FileState
  import opened File
  import FR = FileRead

  /** Clusters needed for `n` bytes. */
  function ClustersFor(v: Volume, n: nat): (k: nat)
    requires v.csize > 0
  {
    if n == 0 then 0 else (n - 1) / SS / v.csize + 1
  }

  /** That is the quotient by the cluster size in bytes, rounded up. */
  lemma ClustersForIsCeiling(v: Volume, n: nat)
    requires v.csize > 0
    ensures 512 * v.csize * ClustersFor(v, n) >= n
    ensures n > 0 ==> 512 * v.csize * (ClustersFor(v, n) - 1) < n
  {
    if n > 0 {
      DivDiv(n - 1, SS, v.csize);
      DivModFacts(n - 1, SS * v.csize);
      var b, k := SS * v.csize, (n - 1) / (SS * v.csize);
      assert b * (k + 1) == b * k + b;
    }
  }

  /** The file after it has been cut at its position. */
  function Cut(v: Volume, f: FileView): FileView
    requires v.csize > 0 && f.fptr <= |f.data| && ClustersFor(v, f.fptr) <= |f.chain|
  {
    f.(data := f.data[..f.fptr], objsize := f.fptr, dirty := false,
       sclust := if f.fptr == 0 then 0 else f.sclust, chain := f.chain[..ClustersFor(v, f.fptr)])
  }

  /** The FAT after the chain has been cut behind its first `n` clusters and the rest freed. */
  ghost predicate CutTable(ft: FatType, t: seq<nat>, u: seq<nat>, chain: seq<nat>, n: nat)
    requires n <= |chain|
  {
    && |u| == |t|
    && (forall c :: 0 <= c < |t| && c !in chain ==> u[c] == t[c])
    && (forall i :: n <= i < |chain| ==> chain[i] < |t| && u[chain[i]] == 0)
    && (n > 0 ==> IsChain(u, chain[..n]))
    && (0 < n < |chain| ==> chain[n - 1] < |u| && EndsChain(ft, u[chain[n - 1]]))
  }

  /** Freeing a whole chain. */
  lemma CutAll(ft: FatType, t: seq<nat>, chain: seq<nat>)
    requires IsChain(t, chain)
    ensures Release(t, chain[0]).1 && CutTable(ft, t, Release(t, chain[0]).0, chain, 0)
  {
    ReleaseChain(t, chain);
  }

  /** Freeing what follows element n - 1, made the new end. */
  lemma CutBehind(v: Volume, t: seq<nat>, chain: seq<nat>, n: nat)
    requires Sound(v) && |t| == v.nFatent && IsChain(t, chain) && 0 < n < |chain|
    ensures 2 <= chain[n - 1] < |t| && t[chain[n - 1]] == chain[n]
    ensures var r := Release(Capped(v, t, chain[n - 1]), chain[n]);
            r.1 && CutTable(v.fsType, t, r.0, chain, n)
  {
    hide Release;
    hide Sound;
    var u := Capped(v, t, chain[n - 1]);
    var head, tail := chain[..n], chain[n..];
    ChainCut(t, chain, n - 1, EndMark(v));
    ReleaseChain(u, tail);
    var w := Freed(u, tail);
    forall i | 0 <= i < |head|
      ensures w[head[i]] == u[head[i]]
    {
      if head[i] in tail {
        var j :| 0 <= j < |tail| && tail[j] == head[i];
        ChainDistinct(t, chain, i, n + j);
      }
    }
    ChainFrame(u, w, head);
    forall i | n <= i < |chain|
      ensures chain[i] < |t| && w[chain[i]] == 0
    {
      assert tail[i - n] == chain[i];
    }
  }

  /** The clusters behind the position removed, the current cluster made the end of the chain. */
  method CutRest(fs: Fatfs, fp: Fil) returns (res: FResult)
    requires fp.Valid(fs) && 0 < fp.fptr < fp.objsize
    modifies fs`wflag, fs`winsect, fs`freeClst, fs`fsiFlag, fs.win, fs.disk
    ensures fs.Valid() && (old(fs.disk.failed) ==> fs.disk.failed)
    ensures res == FR_OK || (res == FR_DISK_ERR && fs.disk.failed)
    ensures SameOffFat1(fs.vol, fs.Logical(), old(fs.Logical())) && WindowNearFat(fs.vol, old(fs.winsect), fs.winsect)
    ensures ClustersFor(fs.vol, fp.fptr) <= |fp.chain|
    ensures res == FR_OK ==> CutTable(fs.vol.fsType, old(fs.Fat()), fs.Fat(), fp.chain, ClustersFor(fs.vol, fp.fptr))
    ensures res == FR_OK && old(CountOk(fs)) ==> CountOk(fs)
  {
    hide Fatfs.Logical;
    hide Mirrored;
    hide Sound;
    hide Core;
    hide Table;
    hide Zeros;
    hide Release;
    hide CutTable;
    hide Capped;
    VolumeBounds(fs.vol);
    ghost var img, ws, t, bad := fs.Logical(), fs.winsect, fs.Fat(), fs.disk.failed;
    CutPlace(fs.vol, img, ws, fp.View());
    var ncl := GetFat(fs, fp.clust);
    res := FR_OK;
    if ncl == FAT_ERROR { res := FR_DISK_ERR; }
    if ncl == 1 { res := FR_INT_ERR; }
    if res == FR_OK && ncl < fs.vol.nFatent {
      ghost var ws1, bad1 := fs.winsect, fs.disk.failed;
      CutBehind(fs.vol, t, fp.chain, ClustersFor(fs.vol, fp.fptr));
      res := RemoveChain(fs, ncl, fp.clust);
      FatOnlyTrans(fs, img, ws, bad, img, ws1, bad1);
    } else if res == FR_OK {
      CutNothing(fs.vol.fsType, t, fp.chain);
    }
  }

  /** The FAT part of f_truncate. */
  method CutChain(fs: Fatfs, fp: Fil) returns (res: FResult)
    requires fp.Valid(fs) && fp.fptr < fp.objsize
    modifies fp`sclust, fs`wflag, fs`winsect, fs`freeClst, fs`fsiFlag, fs.win, fs.disk
    ensures fs.Valid() && (old(fs.disk.failed) ==> fs.disk.failed)
    ensures res == FR_OK || (res == FR_DISK_ERR && fs.disk.failed)
    ensures SameOffFat1(fs.vol, fs.Logical(), old(fs.Logical())) && WindowNearFat(fs.vol, old(fs.winsect), fs.winsect)
    ensures fp.sclust == if fp.fptr == 0 then 0 else old(fp.sclust)
    ensures ClustersFor(fs.vol, fp.fptr) <= |fp.chain|
    ensures res == FR_OK ==> CutTable(fs.vol.fsType, old(fs.Fat()), fs.Fat(), fp.chain, ClustersFor(fs.vol, fp.fptr))
    ensures res == FR_OK && old(CountOk(fs)) ==> CountOk(fs)
  {
    hide Fatfs.Logical;
    hide Mirrored;
    hide Sound;
    hide Core;
    hide Table;
    hide Zeros;
    hide Release;
    hide CutTable;
    hide Capped;
    VolumeBounds(fs.vol);
    ghost var t := fs.Fat();
    CutPlace(fs.vol, fs.Logical(), fs.winsect, fp.View());
    if fp.fptr == 0 {
      CutAll(fs.vol.fsType, t, fp.chain);
      UncappedTable(fs.vol, t);
      res := RemoveChain(fs, fp.sclust, 0);
      fp.sclust := 0;
    } else {
      res := CutRest(fs, fp);
    }
  }

  lemma UncappedTable(v: Volume, t: seq<nat>)
    requires Sound(v)
    ensures Capped(v, t, 0) == t
  {
  }

  lemma CutNothing(ft: FatType, t: seq<nat>, chain: seq<nat>)
    requires IsChain(t, chain)
    ensures CutTable(ft, t, t, chain, |chain|)
  {
    assert chain[..|chain|] == chain;
  }

  /** What the chain and the FAT say at the cut. */
  lemma CutPlace(v: Volume, img: Image, ws: nat, f: FileView)
    requires Fits(v, img) && FileOk(v, img, ws, f) && f.fptr < f.objsize
    ensures v.csize > 0 && ClustersFor(v, f.fptr) <= |f.chain|
    ensures IsChain(Table(v, img), f.chain) && f.chain[0] == f.sclust && 2 <= f.sclust < v.nFatent
    ensures f.fptr > 0 ==> f.clust == f.chain[ClustersFor(v, f.fptr) - 1] && 2 <= f.clust < v.nFatent
    ensures f.fptr > 0 ==> Table(v, img)[f.clust] >= 2
    ensures f.fptr > 0 ==>
      if ClustersFor(v, f.fptr) < |f.chain| then Table(v, img)[f.clust] == f.chain[ClustersFor(v, f.fptr)]
      else Table(v, img)[f.clust] >= v.nFatent
  {
    hide Holds;
    hide FileSectors;
    hide Table;
    hide Sound;
    VolumeBounds(v);
    CoreCapacity(v, img, ws, f);
    Capacity(v, f);
    if 0 < f.fptr && ClustersFor(v, f.fptr) < |f.chain| {
      ChainEntries(Table(v, img), f.sclust, f.chain, ClustersFor(v, f.fptr));
    }
  }

  /** Cutting a file keeps the invariant and leaves other files alone. */
  lemma CutStep(v: Volume, a: Image, b: Image, ws: nat, now: nat, f: FileView)
    requires Fits(v, a) && FileOk(v, a, ws, f) && f.fptr < f.objsize && WindowNearFat(v, ws, now)
    requires ClustersFor(v, f.fptr) <= |f.chain| && SameOffFat1(v, b, a)
    requires Fits(v, b) && CutTable(v.fsType, Table(v, a), Table(v, b), f.chain, ClustersFor(v, f.fptr))
    requires !f.dirty
    ensures FileOk(v, b, now, Cut(v, f)) && Frame(v, a, b, f.chain, Cut(v, f).chain)
  {
    hide Table;
    hide FileSectors;
    hide Holds;
    hide Sound;
    VolumeBounds(v);
    var g := Cut(v, f);
    CutPlace(v, a, ws, f);
    FileSectorsSound(v, a, f.sclust, f.chain);
    FileSectorsSound(v, b, g.sclust, g.chain);
    SectorsPrefix(v, g.chain, f.chain);
    HoldsFrame(a, FileSectors(v, f.chain), f.data, f.sect, false, f.buf, b);
    CutCapacity(v, f.fptr);
    HoldsResize(b, FileSectors(v, f.chain), f.data, f.sect, false, f.buf, FileSectors(v, g.chain), g.data);
  }

  lemma CutCapacity(v: Volume, p: nat)
    requires v.csize > 0
    ensures p <= SS * (ClustersFor(v, p) * v.csize)
    ensures p % SS != 0 ==> p / SS < ClustersFor(v, p) * v.csize
  {
    ClustersForIsCeiling(v, p);
  }

  /** The order of the two writes does not matter: first the FAT, then a dirty buffer, which may go to a cluster just
      freed. */
  lemma DirtyCut(v: Volume, a: Image, b: Image, c: Image, ws: nat, now: nat, f: FileView)
    requires Fits(v, a) && FileOk(v, a, ws, f) && f.fptr < f.objsize && WindowNearFat(v, ws, now)
    requires ClustersFor(v, f.fptr) <= |f.chain| && SameOffFat1(v, b, a)
    requires Fits(v, b) && CutTable(v.fsType, Table(v, a), Table(v, b), f.chain, ClustersFor(v, f.fptr))
    requires f.dirty && f.sect < |b| && c == b[f.sect := f.buf]
    ensures Fits(v, c) && FileOk(v, c, now, Cut(v, f)) && Frame(v, a, c, f.chain, Cut(v, f).chain)
    ensures Table(v, c) == Table(v, b)
  {
    hide Table;
    hide FileSectors;
    hide Sound;
    hide CutTable;
    hide Holds;
    hide FileChain;
    VolumeBounds(v);
    var a1 := a[f.sect := f.buf];
    FileSectorsSound(v, a, f.sclust, f.chain);
    HoldsFlush(a, FileSectors(v, f.chain), f.data, f.sect, f.buf);
    SameTable(v, a, a1);
    SameTable(v, b, c);
    CutStep(v, a1, c, ws, now, f.(dirty := false));
  }

  /** The sector of a dirty buffer is a data sector clear of the window. */
  lemma DirtyPlace(v: Volume, img: Image, ws: nat, now: nat, f: FileView)
    requires Fits(v, img) && Core(v, img, ws, f) && f.dirty && WindowNearFat(v, ws, now)
    ensures v.database <= f.sect < End(v) && f.sect < |img| && f.sect != now
  {
    hide FileSectors;
    hide Holds;
    FileSectorsSound(v, img, f.sclust, f.chain);
  }

  /** From `f` on image `a` to `g` on image `b`: the file was cut at its position, its clusters behind it freed. */
  ghost predicate Truncated(v: Volume, a: Image, b: Image, f: FileView, g: FileView)
  {
    && Fits(v, a) && Fits(v, b)
    && f.fptr <= |f.data| && g.data == f.data[..f.fptr] && g.fptr == f.fptr
    && g.chain <= f.chain
    && (if f.fptr < |f.data| then |g.chain| == ClustersFor(v, f.fptr) && !g.dirty else g == f)
    && (forall c :: c in f.chain && c !in g.chain ==> c < v.nFatent && Table(v, b)[c] == 0)
    && (0 < |g.chain| < |f.chain| ==>
         var last := g.chain[|g.chain| - 1]; last < v.nFatent && EndsChain(v.fsType, Table(v, b)[last]))
    && Frame(v, a, b, f.chain, g.chain)
  }

  lemma CutFrees(ft: FatType, t: seq<nat>, u: seq<nat>, chain: seq<nat>, n: nat)
    requires n <= |chain| && CutTable(ft, t, u, chain, n)
    ensures forall c :: c in chain && c !in chain[..n] ==> c < |t| && u[c] == 0
    ensures 0 < n < |chain| ==> chain[n - 1] < |u| == |t| && EndsChain(ft, u[chain[n - 1]])
  {
    assert chain == chain[..n] + chain[n..];
  }

  /** With the chain cut, write a dirty buffer back. */
  method SettleCut(fs: Fatfs, fp: Fil, ghost img: Image, ghost ws: nat, ghost f: FileView) returns (ok: bool)
    requires fp.Shape(fs) && fs.Valid() && Fits(fs.vol, img) && FileOk(fs.vol, img, ws, f) && f.fptr < f.objsize
    requires fp.View() == f.(objsize := f.fptr, sclust := if f.fptr == 0 then 0 else f.sclust)
    requires WindowNearFat(fs.vol, ws, fs.winsect) && SameOffFat1(fs.vol, fs.Logical(), img)
    requires ClustersFor(fs.vol, f.fptr) <= |f.chain|
    requires CutTable(fs.vol.fsType, Table(fs.vol, img), fs.Fat(), f.chain, ClustersFor(fs.vol, f.fptr))
    modifies fp`dirty, fp`chain, fp`data, fs.disk
    ensures fs.Valid() && (old(fs.disk.failed) ==> fs.disk.failed)
    ensures !ok ==> fs.disk.failed
    ensures ok ==> fp.Valid(fs) && Truncated(fs.vol, img, fs.Logical(), f, fp.View())
    ensures fs.Fat() == old(fs.Fat())
  {
    hide Fatfs.Logical;
    hide Mirrored;
    hide Sound;
    hide Core;
    hide Position;
    hide Table;
    hide Frame;
    hide CutTable;
    VolumeBounds(fs.vol);
    ghost var n, img1, now := ClustersFor(fs.vol, f.fptr), fs.Logical(), fs.winsect;
    CoreCapacity(fs.vol, img, ws, f);
    CutFrees(fs.vol.fsType, Table(fs.vol, img), fs.Fat(), f.chain, n);
    ok := true;
    if fp.dirty {
      DirtyPlace(fs.vol, img, ws, now, f);
      ok := WriteData(fs, fp.buf, fp.sect);
      if !ok {
        return;
      }
      DirtyCut(fs.vol, img, img1, fs.Logical(), ws, now, f);
      fp.dirty := false;
    } else {
      CutStep(fs.vol, img, img1, ws, now, f);
    }
    fp.chain := fp.chain[..n];
    fp.data := fp.data[..fp.fptr];
    assert fp.View() == Cut(fs.vol, f);
  }

  /** The part of f_truncate below the checks, on a file longer than its position. */
  method CutFile(fs: Fatfs, fp: Fil) returns (res: FResult)
    requires fp.Valid(fs) && fp.fptr < fp.objsize
    modifies fp`sclust, fp`objsize, fp`modified, fp`dirty, fp`chain, fp`data
    modifies fs`wflag, fs`winsect, fs`freeClst, fs`fsiFlag, fs.win, fs.disk
    ensures fs.Valid() && (old(fs.disk.failed) ==> fs.disk.failed)
    ensures res == FR_OK || (res == FR_DISK_ERR && fs.disk.failed)
    ensures res == FR_OK ==> fp.Valid(fs) && fp.modified
    ensures res == FR_OK ==> Truncated(fs.vol, old(fs.Logical()), fs.Logical(), old(fp.View()), fp.View())
    ensures res == FR_OK && old(CountOk(fs)) ==> CountOk(fs)
    ensures WindowNearFat(fs.vol, old(fs.winsect), fs.winsect)
  {
    hide Fatfs.Logical;
    hide Mirrored;
    hide Sound;
    hide Core;
    hide Position;
    hide Table;
    hide Zeros;
    hide CutTable;
    hide Truncated;
    ghost var img, ws, f := fs.Logical(), fs.winsect, fp.View();
    res := CutChain(fs, fp);
    fp.objsize := fp.fptr;
    fp.modified := true;
    if res == FR_OK {
      var ok := SettleCut(fs, fp, img, ws, f);
      if !ok {
        res := FR_DISK_ERR;
      }
    }
  }

  method FTruncate(fs: Fatfs, fp: Fil) returns (res: FResult)
    requires fp.Shape(fs) && fs.Valid() && (fp.err == FR_OK ==> fp.Valid(fs))
    modifies fp, fs`wflag, fs`winsect, fs`freeClst, fs`fsiFlag, fs.win, fs.disk
    ensures fs.Valid() && (old(fs.disk.failed) ==> fs.disk.failed)
    ensures old(fp.err) != FR_OK ==> res == old(fp.err) && unchanged(fp, fs, fs.win, fs.disk)
    ensures old(fp.err) == FR_OK && !fp.canWrite ==> res == FR_DENIED && unchanged(fp, fs, fs.win, fs.disk)
    ensures old(fp.err) == FR_OK && fp.canWrite ==>
      (res == FR_OK || (res == FR_DISK_ERR && fs.disk.failed)) && fp.err == res
    ensures res == FR_OK ==>
      && fp.Valid(fs)
      && Truncated(fs.vol, old(fs.Logical()), fs.Logical(), old(fp.View()), fp.View())
      && fp.modified == (old(fp.modified) || old(fp.fptr) < old(fp.objsize))
    ensures res == FR_OK && old(CountOk(fs)) ==> CountOk(fs)
    ensures WindowNearFat(fs.vol, old(fs.winsect), fs.winsect)
    ensures res == FR_OK ==> (fs.wflag ==> old(fs.wflag) || fp.modified)
  {
    hide Fatfs.Logical;
    hide Mirrored;
    hide Sound;
    hide Core;
    hide Position;
    hide Table;
    hide Zeros;
    hide Frame;
    if fp.err != FR_OK {
      return fp.err;
    }
    if !fp.canWrite {
      return FR_DENIED;
    }
    res := FR_OK;
    CoreCapacity(fs.vol, fs.Logical(), fs.winsect, fp.View());
    FrameSame(fs.vol, fs.Logical(), fp.chain);
    if fp.fptr < fp.objsize {
      res := CutFile(fs, fp);
      if res != FR_OK {
        fp.err := res;
      }
    }
  }
}
