/** f_read: bytes come from the file's sector buffer or, whole sectors at a time, straight from the drive. */
module FileRead {
  import opened Arith
  import opened Bytes
  import opened Layout
  import opened Disk
  import opened Window
  import opened FatAccess
  import opened Chains
  import opened Alloc
  import opened FileData
  import opened DataIo
  import opened FileState
  import opened File
  import FW = FileWrite

  /** At the start of a cluster: follow the chain and make the result the current cluster. */
  method NextToRead(fs: Fatfs, fp: Fil) returns (clst: nat)
    requires fp.Valid(fs) && OnBoundary(fs.vol, fp.fptr) && fp.fptr < fp.objsize
    modifies fp`clust, fs`wflag, fs`winsect, fs.win, fs.disk
    ensures fs.Valid() && (old(fs.disk.failed) ==> fs.disk.failed) && fs.Logical() == old(fs.Logical())
    ensures clst >= 2 && (clst == FAT_ERROR ==> fs.disk.failed)
    ensures clst != FAT_ERROR ==>
      fp.Ready(fs) && At(fs.vol, fp.View()) && fp.View() == old(fp.View()).(clust := clst)
    ensures WindowNearFat(fs.vol, old(fs.winsect), fs.winsect)
    ensures fs.wflag ==> old(fs.wflag)
  {
    hide FileSectors;
    hide Table;
    hide Fatfs.Logical;
    hide Mirrored;
    hide Sound;
    hide Core;
    hide OnBoundary;
    hide ClusterIndex;
    hide At;
    hide Position;
    VolumeBounds(fs.vol);
    ghost var img, ws, f := fs.Logical(), fs.winsect, fp.View();
    CoreCapacity(fs.vol, img, ws, f);
    CoreStart(fs.vol, img, ws, f);
    BoundaryPosition(fs.vol, f);
    BoundaryInside(fs.vol, f);
    ghost var k := ClusterIndex(fs.vol, fp.fptr);
    ChainLink(fs.vol, img, ws, f, k);
    if fp.fptr == 0 {
      clst := fp.sclust;
    } else {
      clst := GetFat(fs, fp.clust);
    }
    if clst == FAT_ERROR {
      return;
    }
    CoreWindow(fs.vol, img, ws, fs.winsect, f);
    CoreClust(fs.vol, img, fs.winsect, f, clst);
    fp.clust := clst;
    BoundaryAt(fs.vol, fp.View());
  }

  /** The FAT entry of one element of the chain names the next. */
  lemma ChainLink(v: Volume, img: Image, ws: nat, f: FileView, k: nat)
    requires Fits(v, img) && Core(v, img, ws, f) && k < |f.chain|
    ensures 2 <= f.chain[k] < v.nFatent
    ensures k > 0 ==> 2 <= f.chain[k - 1] < v.nFatent && Table(v, img)[f.chain[k - 1]] == f.chain[k]
  {
  }

  /** At the start of a sector: settle the cluster and find the sector. */
  method StartToRead(fs: Fatfs, fp: Fil) returns (res: FResult, sect: nat)
    requires fp.Valid(fs) && fp.fptr % SS == 0 && fp.fptr < fp.objsize
    modifies fp`clust, fs`wflag, fs`winsect, fs.win, fs.disk
    ensures fs.Valid() && (old(fs.disk.failed) ==> fs.disk.failed) && fs.Logical() == old(fs.Logical())
    ensures res == FR_OK || (res == FR_DISK_ERR && fs.disk.failed)
    ensures res == FR_OK ==>
      fp.Ready(fs) && SectorIs(fs.vol, fp.View(), sect) && fp.View() == old(fp.View()).(clust := fp.clust)
    ensures WindowNearFat(fs.vol, old(fs.winsect), fs.winsect)
    ensures fs.wflag ==> old(fs.wflag)
  {
    hide Table;
    hide Fatfs.Logical;
    hide Mirrored;
    hide Sound;
    hide Core;
    hide Position;
    hide At;
    hide SectorIs;
    hide OnBoundary;
    hide SectorOffset;
    hide Clst2Sect;
    hide ClusterSector;
    VolumeBounds(fs.vol);
    res, sect := FR_OK, 0;
    SectorOffsetIs(fs.vol, fp.fptr);
    var csect := SectorOffset(fs.vol, fp.fptr);
    if csect == 0 {
      var clst := NextToRead(fs, fp);
      if clst < 2 {
        res := FR_INT_ERR;
        return;
      }
      if clst == FAT_ERROR {
        res := FR_DISK_ERR;
        return;
      }
    } else {
      FW.StaysAt(fs, fp);
    }
    AtSector(fs.vol, fs.Logical(), fs.winsect, fp.View());
    sect := Clst2Sect(fs.vol, fp.clust) + csect;
  }

  /** mem_cpy of `n` bytes of the sector buffer to the caller's buffer. */
  method CopyOut(fp: Fil, o: nat, buff: array<Byte>, at: nat, n: nat)
    requires fp.buf.Length == SS && o + n <= SS && at + n <= buff.Length && buff != fp.buf
    modifies buff
    ensures buff[at..at + n] == fp.buf[o..o + n]
    ensures forall i :: 0 <= i < buff.Length && !(at <= i < at + n) ==> buff[i] == old(buff[i])
  {
    for i := 0 to n
      invariant forall j :: 0 <= j < buff.Length ==>
        buff[j] == if at <= j < at + i then fp.buf[o + j - at] else old(buff[j])
    {
      buff[at + i] := fp.buf[o + i];
    }
  }

  /** Put a dirty buffer over its sector, if that is among those just read. */
  method PatchDirty(fp: Fil, buff: array<Byte>, at: nat, sect: nat, cc: nat)
    requires fp.buf.Length == SS && at + SS * cc <= buff.Length && buff != fp.buf
    requires fp.sect < TWO32 && sect + cc < TWO32
    modifies buff
    ensures forall i :: at <= i < at + SS * cc ==>
      buff[i] == if fp.dirty && sect <= fp.sect < sect + cc && (i - at) / SS == fp.sect - sect
        then fp.buf[(i - at) % SS] else old(buff[i])
    ensures forall i :: 0 <= i < buff.Length && !(at <= i < at + SS * cc) ==> buff[i] == old(buff[i])
  {
    hide Sub32;
    Sub32IsRangeTest(fp.sect, sect, cc);
    if fp.dirty && Sub32(fp.sect, sect) < cc {
      var j := fp.sect - sect;
      CopyOut(fp, 0, buff, at + SS * j, SS);
      forall i | at <= i < at + SS * cc
        ensures buff[i] == if (i - at) / SS == j then fp.buf[(i - at) % SS] else old(buff[i])
      {
        DivModFacts(i - at, SS);
        if (i - at) / SS == j {
          assert buff[at + SS * j..at + SS * j + SS][(i - at) % SS] == fp.buf[0..SS][(i - at) % SS];
        }
      }
    }
  }

  /** disk_read of whole sectors, with a dirty buffer patched over the sector it holds. */
  method ReadPatched(fs: Fatfs, fp: Fil, buff: array<Byte>, at: nat, sect: nat, cc: nat) returns (ok: bool)
    requires fs.Valid() && DataSectors(fs, sect, cc) && fp.buf.Length == SS && fp.sect < TWO32 && sect + cc < TWO32
    requires at + SS * cc <= buff.Length && buff != fp.buf && buff != fs.win
    modifies buff, fs.disk`failed
    ensures fs.Valid() && fs.Logical() == old(fs.Logical())
    ensures fs.disk.failed == (old(fs.disk.failed) || !ok)
    ensures ok ==> sect + cc <= |fs.Logical()| && DirectRead(fs.Logical(), fp.View(), sect, cc, buff[at..at + SS * cc])
    ensures forall i :: 0 <= i < at ==> buff[i] == old(buff[i])
  {
    hide Fatfs.Logical;
    hide Mirrored;
    hide Sound;
    ghost var img := fs.Logical();
    ok := ReadDataBlock(fs, buff, at, sect, cc);
    if !ok {
      return;
    }
    ghost var raw := buff[at..at + SS * cc];
    PatchDirty(fp, buff, at, sect, cc);
    ghost var out := buff[at..at + SS * cc];
    forall i | 0 <= i < SS * cc
      ensures raw[i] == img[sect + i / SS][i % SS]
      ensures out[i] == if fp.dirty && sect <= fp.sect < sect + cc && i / SS == fp.sect - sect then fp.buf[i % SS]
        else raw[i]
    {
      assert out[i] == buff[at + i];
    }
  }

  /** The direct path of f_read: as many whole sectors as the request and the cluster allow. */
  method ReadDirect(fs: Fatfs, fp: Fil, buff: array<Byte>, at: nat, btr: nat, sect: nat) returns (ok: bool, rcnt: nat)
    requires fp.Ready(fs) && fp.fptr % SS == 0 && SectorIs(fs.vol, fp.View(), sect)
    requires SS <= btr && at + btr <= buff.Length && buff != fp.buf && buff != fs.win && fp.fptr + btr <= fp.objsize
    modifies fp`fptr, buff, fs.disk`failed
    ensures fs.Valid() && (old(fs.disk.failed) ==> fs.disk.failed) && fs.Logical() == old(fs.Logical())
    ensures !ok ==> fs.disk.failed
    ensures ok ==> 0 < rcnt <= btr && fp.Valid(fs) && fp.View() == old(fp.View()).(fptr := old(fp.fptr) + rcnt)
    ensures ok ==> Delivers(fp.data, old(fp.fptr), buff[at..at + rcnt])
    ensures forall i :: 0 <= i < at ==> buff[i] == old(buff[i])
  {
    hide SectorIs;
    hide Fatfs.Logical;
    hide Mirrored;
    hide Sound;
    hide Core;
    hide Position;
    hide Table;
    hide SectorOffset;
    hide DirectRead;
    hide Delivers;
    VolumeBounds(fs.vol);
    ghost var f, img := fp.View(), fs.Logical();
    var cc := btr / SS;
    DivModFacts(btr, SS);
    SectorOffsetIs(fs.vol, fp.fptr);
    var csect := SectorOffset(fs.vol, fp.fptr);
    if csect + cc > fs.vol.csize {
      cc := fs.vol.csize - csect;
    }
    rcnt := SS * cc;
    DirectRange(fs.vol, img, fs.winsect, f, cc, sect);
    ok := ReadPatched(fs, fp, buff, at, sect, cc);
    if !ok {
      return;
    }
    DirectDelivers(fs.vol, img, fs.winsect, f, cc, sect, buff[at..at + rcnt]);
    DirectAdvance(fs.vol, img, fs.winsect, f, cc, sect);
    fp.fptr := fp.fptr + rcnt;
  }

  /** Bring the buffer to the sector, writing it back first if it is dirty. */
  method LoadToRead(fs: Fatfs, fp: Fil, sect: nat) returns (ok: bool)
    requires fp.Ready(fs) && SectorIs(fs.vol, fp.View(), sect)
    modifies fp`sect, fp`dirty, fp.buf, fs.disk
    ensures fs.Valid() && (old(fs.disk.failed) ==> fs.disk.failed)
    ensures !ok ==> fs.disk.failed
    ensures ok ==> fp.Ready(fs) && OnSector(fs.vol, fp.View())
    ensures ok ==> fp.View() == old(fp.View()).(sect := sect, dirty := fp.dirty, buf := fp.buf[..])
    ensures ok && fp.dirty ==> old(fp.dirty)
    ensures ok ==> Frame(fs.vol, old(fs.Logical()), fs.Logical(), fp.chain, fp.chain)
    ensures fs.Fat() == old(fs.Fat())
  {
    hide SectorIs;
    hide OnSector;
    hide Fatfs.Logical;
    hide Mirrored;
    hide Sound;
    hide Core;
    hide Frame;
    hide Table;
    VolumeBounds(fs.vol);
    ghost var f := fp.View();
    ok := true;
    FrameSame(fs.vol, fs.Logical(), fp.chain);
    if fp.sect != sect {
      ok := WriteBack(fs, fp);
      if !ok {
        return;
      }
      SectorIsDirty(fs.vol, f, fp.View(), sect);
      SectorPlace(fs.vol, fs.Logical(), fs.winsect, fp.View(), sect);
      ok := ReadData(fs, fp.buf, sect);
      if !ok {
        return;
      }
      LoadStep(fs.vol, fs.Logical(), fs.winsect, f.(dirty := false), sect);
    } else {
      SectorIsOn(fs.vol, f, sect);
    }
    fp.sect := sect;
  }

  lemma SectorIsDirty(v: Volume, f: FileView, g: FileView, s: int)
    requires v.csize > 0 && SectorIs(v, f, s) && g == f.(dirty := false)
    ensures SectorIs(v, g, s)
  {
  }

  lemma SectorIsOn(v: Volume, f: FileView, s: int)
    requires v.csize > 0 && SectorIs(v, f, s) && f.sect == s
    ensures OnSector(v, f)
  {
  }

  /** Part of a sector, out of the sector buffer. */
  method GetBytes(fs: Fatfs, fp: Fil, buff: array<Byte>, at: nat, n: nat)
    requires fp.Ready(fs) && OnSector(fs.vol, fp.View())
    requires 0 < n && fp.fptr % SS + n <= SS && fp.fptr + n <= fp.objsize
    requires at + n <= buff.Length && buff != fp.buf && buff != fs.win
    modifies fp`fptr, buff
    ensures fp.Valid(fs) && fp.View() == old(fp.View()).(fptr := old(fp.fptr) + n)
    ensures Delivers(fp.data, old(fp.fptr), buff[at..at + n])
    ensures forall i :: 0 <= i < at ==> buff[i] == old(buff[i])
  {
    hide OnSector;
    hide Fatfs.Logical;
    hide Mirrored;
    hide Sound;
    hide Core;
    hide Position;
    hide Delivers;
    VolumeBounds(fs.vol);
    BufferDelivers(fs.vol, fs.Logical(), fs.winsect, fp.View(), n);
    BufferAdvance(fs.vol, fs.Logical(), fs.winsect, fp.View(), n);
    CopyOut(fp, fp.fptr % SS, buff, at, n);
    fp.fptr := fp.fptr + n;
  }

  /** From `f` on image `a` to `g` on image `b`: `out` was read at the position; content and chain are as they were. */
  ghost predicate DidRead(v: Volume, a: Image, b: Image, f: FileView, g: FileView, out: seq<Byte>)
  {
    && Fits(v, a) && Fits(v, b)
    && g.data == f.data && g.chain == f.chain && g.sclust == f.sclust && g.objsize == f.objsize
    && g.fptr == f.fptr + |out|
    && (g.dirty ==> f.dirty)
    && Delivers(f.data, f.fptr, out)
    && Frame(v, a, b, f.chain, f.chain)
    && Table(v, a) == Table(v, b)
  }

  lemma ReadNothing(v: Volume, a: Image, f: FileView)
    requires Fits(v, a) && f.fptr <= |f.data|
    ensures DidRead(v, a, a, f, f, [])
  {
    FrameSame(v, a, f.chain);
  }

  lemma ReadTrans(v: Volume, a: Image, b: Image, c: Image, f: FileView, g: FileView, h: FileView, x: seq<Byte>,
      y: seq<Byte>)
    requires DidRead(v, a, b, f, g, x) && DidRead(v, b, c, g, h, y)
    ensures DidRead(v, a, c, f, h, x + y) && h.fptr == f.fptr + |x| + |y|
  {
    hide Delivers;
    hide Frame;
    hide Table;
    DeliversTwice(f.data, f.fptr, x, y);
    FrameTrans(v, a, b, c, f.chain, f.chain, f.chain);
  }

  /** One turn of the for loop of f_read. */
  method ReadStep(fs: Fatfs, fp: Fil, buff: array<Byte>, at: nat, btr: nat) returns (res: FResult, rcnt: nat)
    requires fp.Valid(fs) && 0 < btr && at + btr <= buff.Length && buff != fp.buf && buff != fs.win
      && fp.fptr + btr <= fp.objsize
    modifies fp`dirty, fp`fptr, fp`clust, fp`sect, fp.buf, fs`wflag, fs`winsect, fs.win, fs.disk, buff
    ensures fs.Valid() && (old(fs.disk.failed) ==> fs.disk.failed)
    ensures res == FR_OK || (res == FR_DISK_ERR && fs.disk.failed)
    ensures res == FR_OK ==> 0 < rcnt <= btr && fp.Valid(fs)
    ensures res == FR_OK ==>
      DidRead(fs.vol, old(fs.Logical()), fs.Logical(), old(fp.View()), fp.View(), buff[at..at + rcnt])
    ensures forall i :: 0 <= i < at ==> buff[i] == old(buff[i])
    ensures WindowNearFat(fs.vol, old(fs.winsect), fs.winsect)
    ensures fs.wflag ==> old(fs.wflag)
  {
    hide SectorIs;
    hide OnSector;
    hide Fatfs.Logical;
    hide Mirrored;
    hide Sound;
    hide Core;
    hide Frame;
    hide Position;
    hide Table;
    hide Delivers;
    VolumeBounds(fs.vol);
    FrameSame(fs.vol, fs.Logical(), fp.chain);
    res, rcnt := FR_OK, 0;
    if fp.fptr % SS == 0 {
      var sect;
      res, sect := StartToRead(fs, fp);
      if res != FR_OK {
        return;
      }
      if btr / SS > 0 {
        var ok;
        ok, rcnt := ReadDirect(fs, fp, buff, at, btr, sect);
        res := if ok then FR_OK else FR_DISK_ERR;
        return;
      }
      var ok := LoadToRead(fs, fp, sect);
      if !ok {
        res := FR_DISK_ERR;
        return;
      }
    } else {
      MidSector(fs.vol, fs.Logical(), fs.winsect, fp.View());
    }
    rcnt := SS - fp.fptr % SS;
    if rcnt > btr {
      rcnt := btr;
    }
    GetBytes(fs, fp, buff, at, rcnt);
  }

  /** The for loop of f_read. */
  method ReadAll(fs: Fatfs, fp: Fil, buff: array<Byte>, btr: nat) returns (res: FResult, br: nat)
    requires fp.Valid(fs) && btr <= buff.Length && buff != fp.buf && buff != fs.win && fp.fptr + btr <= fp.objsize
    modifies fp`dirty, fp`fptr, fp`clust, fp`sect, fp.buf, fs`wflag, fs`winsect, fs.win, fs.disk, buff
    ensures fs.Valid() && (old(fs.disk.failed) ==> fs.disk.failed)
    ensures res == FR_OK || (res == FR_DISK_ERR && fs.disk.failed)
    ensures br <= btr && Delivers(old(fp.data), old(fp.fptr), buff[..br])
    ensures res == FR_OK ==> br == btr && fp.Valid(fs)
    ensures res == FR_OK ==>
      DidRead(fs.vol, old(fs.Logical()), fs.Logical(), old(fp.View()), fp.View(), buff[..btr])
    ensures WindowNearFat(fs.vol, old(fs.winsect), fs.winsect)
    ensures fs.wflag ==> old(fs.wflag)
  {
    hide Fatfs.Logical;
    hide Mirrored;
    hide Sound;
    hide Core;
    hide Position;
    hide Table;
    hide DidRead;
    hide Delivers;
    ghost var img, f := fs.Logical(), fp.View();
    CoreCapacity(fs.vol, img, fs.winsect, f);
    ReadNothing(fs.vol, img, f);
    res, br := FR_OK, 0;
    assert buff[..0] == [];
    while br < btr
      invariant br <= btr && res == FR_OK && fp.Valid(fs) && (old(fs.disk.failed) ==> fs.disk.failed)
      invariant fp.fptr == f.fptr + br && fp.objsize == f.objsize
      invariant WindowNearFat(fs.vol, old(fs.winsect), fs.winsect)
      invariant fs.wflag ==> old(fs.wflag)
      invariant DidRead(fs.vol, img, fs.Logical(), f, fp.View(), buff[..br])
    {
      ghost var img1, g, x := fs.Logical(), fp.View(), buff[..br];
      WhatWasRead(fs.vol, img, img1, f, g, x);
      var rcnt;
      res, rcnt := ReadStep(fs, fp, buff, br, btr - br);
      assert buff[..br] == x;
      if res != FR_OK {
        return;
      }
      assert x + buff[br..br + rcnt] == buff[..br + rcnt];
      ReadTrans(fs.vol, img, img1, fs.Logical(), f, g, fp.View(), x, buff[br..br + rcnt]);
      br := br + rcnt;
    }
    WhatWasRead(fs.vol, img, fs.Logical(), f, fp.View(), buff[..br]);
  }

  lemma WhatWasRead(v: Volume, a: Image, b: Image, f: FileView, g: FileView, out: seq<Byte>)
    requires DidRead(v, a, b, f, g, out)
    ensures Delivers(f.data, f.fptr, out)
  {
  }

  /** f_read. Whether or not the drive fails, the `br` bytes handed over are the content's. */
  method FRead(fs: Fatfs, fp: Fil, buff: array<Byte>, btr: nat) returns (res: FResult, br: nat)
    requires fp.Shape(fs) && fs.Valid() && (fp.err == FR_OK ==> fp.Valid(fs))
    requires btr <= buff.Length && buff != fp.buf && buff != fs.win
    modifies fp, fp.buf, fs`wflag, fs`winsect, fs.win, fs.disk, buff
    ensures fs.Valid() && (old(fs.disk.failed) ==> fs.disk.failed)
    ensures old(fp.err) != FR_OK ==> res == old(fp.err) && br == 0 && unchanged(fp, fp.buf, fs, fs.win, fs.disk, buff)
    ensures old(fp.err) == FR_OK && !fp.canRead ==>
      res == FR_DENIED && br == 0 && unchanged(fp, fp.buf, fs, fs.win, fs.disk, buff)
    ensures old(fp.err) == FR_OK && fp.canRead ==>
      (res == FR_OK || (res == FR_DISK_ERR && fs.disk.failed)) && fp.err == res && fp.modified == old(fp.modified)
    ensures old(fp.err) == FR_OK && fp.canRead ==> br <= btr && Delivers(old(fp.data), old(fp.fptr), buff[..br])
    ensures old(fp.err) == FR_OK && fp.canRead && res == FR_OK ==>
      && fp.Valid(fs) && br <= btr
      && br == (if btr <= old(fp.objsize) - old(fp.fptr) then btr else old(fp.objsize) - old(fp.fptr))
      && DidRead(fs.vol, old(fs.Logical()), fs.Logical(), old(fp.View()), fp.View(), buff[..br])
    ensures old(fp.err) == FR_OK && fp.canRead ==>
      forall k :: 0 <= k < br && old(fp.data)[old(fp.fptr) + k].Some? ==>
        ByteIs(fs.vol, old(fs.disk.image), old(fp.View()), old(fp.fptr) + k, buff[k])
    ensures WindowNearFat(fs.vol, old(fs.winsect), fs.winsect)
    ensures fs.wflag ==> old(fs.wflag)
  {
    hide Fatfs.Logical;
    hide Mirrored;
    hide Sound;
    hide Core;
    hide Position;
    hide Table;
    hide DidRead;
    hide ByteIs;
    hide InPlace;
    br := 0;
    if fp.err != FR_OK {
      return fp.err, 0;
    }
    if !fp.canRead {
      return FR_DENIED, 0;
    }
    CoreCapacity(fs.vol, fs.Logical(), fs.winsect, fp.View());
    ghost var raw, f := fs.disk.image, fp.View();
    ViewInPlace(fs, fp);
    var remain := fp.objsize - fp.fptr;
    res, br := ReadAll(fs, fp, buff, if btr > remain then remain else btr);
    DeliveredPlaces(fs.vol, raw, f, buff[..br]);
    if res != FR_OK {
      fp.err := res;
    }
  }
}
