/** f_sync and sync_fs: bring the buffer, the directory entry, the window and FSInfo to the drive. */
module FileSync {
  import opened Arith
  import opened Bytes
  import opened FatCodec
  import opened Layout
  import opened Disk
  import opened Window
  import opened FatAccess
  import opened Chains
  import opened Alloc
  import opened FileData
  import opened DataIo
  import opened FileState
  import opened File
  import opened DirEntry
  import opened OnDisk

  /** Images that agree off the FSInfo sector of a FAT32 volume. */
  ghost predicate SameButInfo(v: Volume, a: Image, b: Image)
  {
    |a| == |b| && forall s :: 0 <= s < |a| && !(v.fsType == FAT32 && IsInfo(v, s)) ==> a[s] == b[s]
  }

  /** A write to the FSInfo sector behind a clean window changes nothing else of the volume. */
  lemma InfoWritten(v: Volume, raw: Image, after: Image, at: nat, w: Sector, now: nat, x: Sector)
    requires Fits(v, raw) && |after| == |raw| && v.fsType == FAT32 && v.volbase + 1 < v.fatbase
    requires forall s :: 0 <= s < |raw| && s != v.volbase + 1 ==> after[s] == raw[s]
    ensures SameButInfo(v, Overlay(v, after, false, now, x), Overlay(v, raw, false, at, w))
    ensures Mirrored(v, raw) ==> Mirrored(v, after)
  {
    FatFits(v, raw);
  }

  /** A FAT32 whose first sector has become an FSInfo sector: entry 0 holds its signature, and the next 120 look
      free. */
  ghost predicate Clobbered(t: seq<nat>)
  {
    |t| > 0 && t[0] == 0x4161_5252 % 0x1000_0000 && forall c :: 1 <= c <= 120 && c < |t| ==> t[c] == 0
  }

  lemma InfoBytes(free: nat, last: nat, c: nat)
    requires c <= 120
    ensures LdDword(InfoSector(free, last), 4 * c) == if c == 0 then 0x4161_5252 else 0
  {
    hide StWord;
    hide StDword;
    hide LdDword;
    var a := StWord(seq(SS, _ => 0), 510, 0xAA55);
    var b := StDword(a, 0, 0x4161_5252);
    var d := StDword(b, 484, 0x6141_7272);
    var e := StDword(StDword(d, 488, free), 492, last);
    DwordKept(b, e, 4 * c);
    if c > 0 {
      DwordKept(seq(SS, _ => 0), e, 4 * c);
      ZeroDword(4 * c);
    }
  }

  lemma ZeroDword(i: nat)
    requires i + 4 <= SS
    ensures LdDword(seq(SS, _ => 0), i) == 0
  {
  }

  /** Entry `c` of a FAT32 in its first sector. */
  lemma FirstEntries(v: Volume, img: Image, c: nat)
    requires Fits(v, img) && v.fsType == FAT32 && c < v.nFatent && c <= 120
    ensures v.fatbase < |img| && Table(v, img)[c] == LdDword(img[v.fatbase], 4 * c) % 0x1000_0000
  {
    hide Sound;
    hide LdDword;
    FatFits(v, img);
    EntryInFat(v, c);
    var b := FatBytes(v, img);
    assert |b| >= SS;
    forall k | 4 * c <= k < 4 * c + 4
      ensures b[..SS][k] == img[v.fatbase][k]
    {
      assert b[k] == FatByte(v, img, k);
      DivModUnique(k, SS, 0, k);
    }
    DwordKept(b[..SS], img[v.fatbase], 4 * c);
    PrefixDword(b, 4 * c);
  }

  lemma PrefixDword(b: seq<Byte>, i: nat)
    requires i + 4 <= SS <= |b|
    ensures LdDword(b, i) == LdDword(b[..SS], i)
  {
  }

  lemma InfoClobbers(v: Volume, img: Image, free: nat, last: nat)
    requires Fits(v, img) && v.fsType == FAT32 && v.fatbase < |img| && img[v.fatbase] == InfoSector(free, last)
    ensures Clobbered(Table(v, img))
  {
    hide InfoSector;
    hide LdDword;
    hide Table;
    hide Sound;
    VolumeBounds(v);
    forall c | 0 <= c <= 120 && c < v.nFatent
      ensures Table(v, img)[c] == if c == 0 then 0x4161_5252 % 0x1000_0000 else 0
    {
      FirstEntries(v, img, c);
      InfoBytes(free, last, c);
    }
  }

  lemma InfoLeavesFat(v: Volume, a: Image, b: Image)
    requires Fits(v, a) && Fits(v, b) && SameButInfo(v, b, a)
    ensures Table(v, b) == Table(v, a)
  {
    hide Table;
    hide Sound;
    InfoOffFat(v);
    SameTable(v, a, b);
  }

  lemma RawClobbers(v: Volume, raw: Image, at: nat, w: Sector, free: nat, last: nat)
    requires Fits(v, raw) && v.fsType == FAT32 && v.fatbase <= v.volbase + 1 < |raw|
      && raw[v.volbase + 1] == InfoSector(free, last)
    ensures Clobbered(Table(v, Overlay(v, raw, false, at, w)))
  {
    hide InfoSector;
    hide Table;
    hide Clobbered;
    InfoClobbers(v, Overlay(v, raw, false, at, w), free, last);
  }

  /** The FSInfo part of sync_fs. */
  method WriteInfo(fs: Fatfs)
    requires fs.Mounted() && !fs.wflag && fs.vol.fsType == FAT32
    modifies fs`winsect, fs`fsiFlag, fs.win, fs.disk
    ensures fs.Shape() && (old(fs.disk.failed) ==> fs.disk.failed) && fs.fsiFlag == 0
      && fs.winsect == fs.vol.volbase + 1
    ensures fs.vol.volbase + 1 < fs.vol.fatbase ==> fs.Valid() && SameButInfo(fs.vol, fs.Logical(), old(fs.Logical()))
    ensures !fs.disk.failed ==>
      fs.vol.volbase + 1 < |fs.disk.image| && fs.disk.image[fs.vol.volbase + 1] == InfoSector(fs.freeClst, fs.lastClst)
  {
    hide InfoSector;
    ghost var raw, at, w := fs.disk.image, fs.winsect, fs.win[..];
    PutInfo(fs.win, fs.freeClst, fs.lastClst);
    fs.winsect := fs.vol.volbase + 1;
    var _ := fs.disk.WriteSector(fs.win, fs.winsect);
    if fs.winsect < fs.vol.fatbase {
      InfoWritten(fs.vol, raw, fs.disk.image, at, w, fs.winsect, fs.win[..]);
    }
    fs.fsiFlag := 0;
  }

  /** sync_fs. With FSInfo off the FAT it leaves all but the FSInfo sector alone; otherwise the first FAT sector is
      lost when FSInfo is due, whatever it held. */
  method SyncFs(fs: Fatfs) returns (res: FResult)
    requires fs.Mounted()
    modifies fs`wflag, fs`winsect, fs`fsiFlag, fs.win, fs.disk
    ensures fs.Shape() && (old(fs.disk.failed) ==> fs.disk.failed)
    ensures res == FR_OK || (res == FR_DISK_ERR && fs.disk.failed)
    ensures old(fs.Valid()) ==> fs.Valid() && SameButInfo(fs.vol, fs.Logical(), old(fs.Logical()))
    ensures !(fs.vol.fsType == FAT32 && old(fs.fsiFlag) == 1) ==> fs.Logical() == old(fs.Logical())
    ensures res == FR_OK && !fs.disk.failed ==>
      if old(fs.Valid()) || old(fs.fsiFlag) != 1 then fs.Fat() == old(fs.Fat()) else Clobbered(fs.Fat())
    ensures res == FR_OK <==> !fs.wflag
    ensures old(fs.Valid()) ==> fs.winsect == old(fs.winsect) || (fs.vol.fsType == FAT32 && IsInfo(fs.vol, fs.winsect))
    ensures !fs.disk.failed && fs.vol.fsType == FAT32 && old(fs.fsiFlag) == 1 ==>
      fs.fsiFlag == 0 && fs.vol.volbase + 1 < |fs.disk.image|
      && fs.disk.image[fs.vol.volbase + 1] == InfoSector(fs.freeClst, fs.lastClst)
  {
    hide InfoSector;
    hide Table;
    hide Clobbered;
    hide Sound;
    hide Mirrored;
    hide Overlay;
    hide SameButInfo;
    ghost var img := fs.Logical();
    SameInfo(fs.vol, img);
    res := SyncWindow(fs);
    if res == FR_OK {
      if fs.vol.fsType == FAT32 && fs.fsiFlag == 1 {
        WriteInfo(fs);
        if fs.vol.volbase + 1 < fs.vol.fatbase {
          InfoLeavesFat(fs.vol, img, fs.Logical());
        } else if !fs.disk.failed {
          RawClobbers(fs.vol, fs.disk.image, fs.winsect, fs.win[..], fs.freeClst, fs.lastClst);
        }
      }
    }
  }

  lemma SameInfo(v: Volume, img: Image)
    ensures SameButInfo(v, img, img)
  {
  }

  /** The directory entry updated in the window. */
  method UpdateEntry(fs: Fatfs, o: nat, start: nat, size: nat)
    requires fs.Valid() && fs.winsect < |fs.disk.image| && !InFat2(fs.vol, fs.winsect) && !IsInfo(fs.vol, fs.winsect)
    requires o + SZDIRE <= SS
    modifies fs`wflag, fs.win
    ensures fs.Valid() && fs.winsect < |old(fs.Logical())|
    ensures fs.Logical() ==
      old(fs.Logical())[fs.winsect := SyncedEntry(fs.vol.fsType, old(fs.Logical())[fs.winsect], o, start, size)]
  {
    hide SyncedEntry;
    ghost var img := fs.Logical();
    assert fs.win[..] == img[fs.winsect];
    PutEntry(fs.vol.fsType, fs.win, o, start, size);
    fs.wflag := true;
  }

  /** The window is where it was, nowhere, or on the entry's sector or FSInfo: none of the file's sectors. */
  predicate WindowOnEntry(v: Volume, s: nat, before: nat, now: nat)
  {
    now == before || now == NO_SECTOR || now == s || (v.fsType == FAT32 && IsInfo(v, now))
  }

  /** What f_sync may change besides the file's own sectors: the entry's allocation fields and FSInfo. */
  ghost predicate EntryOnly(v: Volume, a: Image, b: Image, s: nat, o: nat, secs: seq<int>)
    requires s < |a| && o + SZDIRE <= SS
  {
    && |b| == |a|
    && (forall k :: 0 <= k < |a| && k != s && !(v.fsType == FAT32 && IsInfo(v, k)) && k !in secs ==> b[k] == a[k])
    && (forall j :: 0 <= j < 512 && j != o + 11 && !(o + 18 <= j < o + 32) ==> b[s][j] == a[s][j])
    && (v.fsType != FAT32 ==> b[s][o + 20] == a[s][o + 20] && b[s][o + 21] == a[s][o + 21])
  }

  /** Storing the entry and FSInfo keeps a clean file's invariant, and then the image carries the file. */
  lemma SyncStep(v: Volume, a: Image, b: Image, c: Image, ws: nat, now: nat, f: FileView, dirClust: nat, s: nat, o: nat)
    requires Fits(v, a) && Core(v, a, ws, f) && !f.dirty && DirAt(v, Table(v, a), dirClust, s, o, f.chain)
    requires s < |a| && b == a[s := SyncedEntry(v.fsType, a[s], o, f.sclust, f.objsize)]
    requires SameButInfo(v, c, b) && WindowOnEntry(v, s, ws, now)
    ensures Fits(v, c) && Core(v, c, now, f) && Table(v, c) == Table(v, a)
    ensures Recorded(v, c, s, o, f) && EntryOnly(v, a, c, s, o, [])
    ensures EntryNames(v.fsType, c[s], o, f.sclust, f.objsize) && EntryStamped(c[s], o)
  {
    hide Table;
    hide FileSectors;
    hide SyncedEntry;
    hide LdClust;
    hide LdSize;
    hide Sound;
    VolumeBounds(v);
    DirClear(v, a, f, ws, dirClust, s, o);
    FileSectorsSound(v, a, f.sclust, f.chain);
    InfoOffFat(v);
    SameTable(v, a, c);
    HoldsFrame(a, FileSectors(v, f.chain), f.data, f.sect, false, f.buf, c);
    StartFits(v, a, ws, f);
    hide EntryNames;
    hide EntryStamped;
    SyncedEntryDecodes(v.fsType, a[s], o, f.sclust, f.objsize);
    SyncedBytes(v.fsType, a[s], o, f.sclust, f.objsize);
    CleanIsRecorded(v, c, now, s, o, f);
  }

  lemma InfoOffFat(v: Volume)
    requires Sound(v)
    ensures forall s :: IsInfo(v, s) ==> !InFat1(v, s) && !InFat2(v, s) && s < v.fatbase <= v.database
  {
  }

  /** A start cluster fits its fields in the entry. */
  lemma StartFits(v: Volume, img: Image, ws: nat, f: FileView)
    requires Fits(v, img) && Core(v, img, ws, f)
    ensures f.sclust < Modulus(v.fsType) && f.objsize < TWO32
  {
    hide Holds;
    hide Table;
    hide FileSectors;
  }

  /** The entry's bytes on the raw drive. */
  ghost predicate EntryOnDrive(v: Volume, raw: Image, s: nat, o: nat, start: nat, size: nat)
  {
    s < |raw| && o + 32 <= 512 && EntryNames(v.fsType, raw[s], o, start, size) && EntryStamped(raw[s], o)
  }

  lemma SameEntry(v: Volume, raw: Image, at: nat, w: Sector, s: nat)
    requires s < |raw| && !InFat2(v, s)
    ensures Overlay(v, raw, false, at, w)[s] == raw[s]
  {
  }

  /** With a clean window the drive itself carries what the logical volume carries. */
  lemma RecordedRaw(v: Volume, raw: Image, at: nat, w: Sector, s: nat, o: nat, f: FileView)
    requires Recorded(v, Overlay(v, raw, false, at, w), s, o, f) && Fits(v, raw) && !InFat2(v, s)
    ensures Recorded(v, raw, s, o, f)
  {
    hide Table;
    hide FileSectors;
    hide LdClust;
    hide LdSize;
    hide Sound;
    var img := Overlay(v, raw, false, at, w);
    VolumeBounds(v);
    InfoOffFat(v);
    Fat1NotFat2(v);
    SameTable(v, img, raw);
    FileSectorsSound(v, img, f.sclust, f.chain);
  }

  /** The part of f_sync after the buffer has been written back. On failure the file is as it was but for FA_MODIFIED,
      which is cleared even when only the window holds the entry. */
  method SyncEntry(fs: Fatfs, fp: Fil) returns (res: FResult)
    requires fp.Ready(fs) && !fp.dirty && DirAt(fs.vol, fs.Fat(), fp.dirClust, fp.dirSect, fp.dirOfs, fp.chain)
    modifies fp`modified, fs`wflag, fs`winsect, fs`fsiFlag, fs.win, fs.disk
    ensures fs.Valid() && (old(fs.disk.failed) ==> fs.disk.failed)
    ensures res == FR_OK || (res == FR_DISK_ERR && fs.disk.failed)
    ensures fp.Ready(fs) && fs.Fat() == old(fs.Fat())
    ensures fp.dirSect < |old(fs.Logical())| && WindowOnEntry(fs.vol, fp.dirSect, old(fs.winsect), fs.winsect)
    ensures EntryOnly(fs.vol, old(fs.Logical()), fs.Logical(), fp.dirSect, fp.dirOfs, [])
    ensures res == FR_OK ==> !fp.modified && !fs.wflag
    ensures fp.modified ==> old(fp.modified)
    ensures res != FR_OK ==> fp.modified == old(fp.modified) || (!fp.modified && fs.wflag)
    ensures res == FR_OK || fp.modified != old(fp.modified) ==>
      Recorded(fs.vol, fs.Logical(), fp.dirSect, fp.dirOfs, fp.View())
    ensures res == FR_OK ==> Recorded(fs.vol, fs.disk.image, fp.dirSect, fp.dirOfs, fp.View())
    ensures res == FR_OK ==> EntryOnDrive(fs.vol, fs.disk.image, fp.dirSect, fp.dirOfs, fp.sclust, fp.objsize)
  {
    hide Fatfs.Logical;
    hide Mirrored;
    hide Sound;
    hide Core;
    hide Table;
    hide SyncedEntry;
    hide Recorded;
    hide EntryOnly;
    VolumeBounds(fs.vol);
    ghost var img, ws, f := fs.Logical(), fs.winsect, fp.View();
    DirClear(fs.vol, img, f, ws, fp.dirClust, fp.dirSect, fp.dirOfs);
    EntryUntouched(fs.vol, img, fp.dirSect, fp.dirOfs);
    res := MoveWindow(fs, fp.dirSect);
    if res != FR_OK {
      CoreElsewhere(fs.vol, img, ws, fs.winsect, f, fp.dirClust, fp.dirSect, fp.dirOfs);
      return;
    }
    UpdateEntry(fs, fp.dirOfs, fp.sclust, fp.objsize);
    ghost var img1 := fs.Logical();
    res := SyncFs(fs);
    fp.modified := false;
    SyncStep(fs.vol, img, img1, fs.Logical(), ws, fs.winsect, f, fp.dirClust, fp.dirSect, fp.dirOfs);
    if res == FR_OK {
      hide EntryNames;
      hide EntryStamped;
      CleanLogical(fs);
      SameEntry(fs.vol, fs.disk.image, fs.winsect, fs.win[..], fp.dirSect);
      RecordedRaw(fs.vol, fs.disk.image, fs.winsect, fs.win[..], fp.dirSect, fp.dirOfs, f);
    }
  }

  lemma EntryUntouched(v: Volume, img: Image, s: nat, o: nat)
    requires s < |img| && o + SZDIRE <= SS
    ensures EntryOnly(v, img, img, s, o, [])
  {
  }

  /** Moving the window to the entry, or failing to, keeps the file's invariant. */
  lemma CoreElsewhere(v: Volume, img: Image, ws: nat, now: nat, f: FileView, dirClust: nat, s: nat, o: nat)
    requires Fits(v, img) && Core(v, img, ws, f) && DirAt(v, Table(v, img), dirClust, s, o, f.chain)
    requires now in {ws, s, NO_SECTOR}
    ensures Core(v, img, now, f)
  {
    hide Table;
    hide FileSectors;
    hide Holds;
    DirClear(v, img, f, ws, dirClust, s, o);
    FileSectorsSound(v, img, f.sclust, f.chain);
  }

  lemma CleanLogical(fs: Fatfs)
    requires fs.Valid() && !fs.wflag
    ensures fs.Logical() == Overlay(fs.vol, fs.disk.image, false, fs.winsect, fs.win[..]) && Fits(fs.vol, fs.disk.image)
  {
  }

  lemma EntryOnlyAfter(v: Volume, a: Image, b: Image, c: Image, s: nat, o: nat, chain: seq<nat>)
    requires Fits(v, a) && Fits(v, b) && Frame(v, a, b, chain, chain) && Table(v, a) == Table(v, b)
    requires SameFat1(v, b, a) && s < |a| && o + SZDIRE <= SS && s !in FileSectors(v, chain)
      && EntryOnly(v, b, c, s, o, [])
    ensures EntryOnly(v, a, c, s, o, FileSectors(v, chain))
  {
    hide Table;
    hide FileSectors;
  }

  /** f_sync. A modified file is then on the drive: its directory entry alone leads to the handle's content. On failure
      the handle keeps content and position. */
  method FSync(fs: Fatfs, fp: Fil) returns (res: FResult)
    requires fp.Valid(fs) && DirAt(fs.vol, fs.Fat(), fp.dirClust, fp.dirSect, fp.dirOfs, fp.chain)
    modifies fp`modified, fp`dirty, fs`wflag, fs`winsect, fs`fsiFlag, fs.win, fs.disk
    ensures fs.Valid() && (old(fs.disk.failed) ==> fs.disk.failed)
    ensures res == FR_OK || (res == FR_DISK_ERR && fs.disk.failed)
    ensures !old(fp.modified) ==> res == FR_OK && unchanged(fp, fs, fs.win, fs.disk)
    ensures fp.Valid(fs) && fs.Fat() == old(fs.Fat())
    ensures fp.View() == old(fp.View()).(dirty := fp.dirty) && (fp.dirty ==> old(fp.dirty))
    ensures res == FR_OK ==> !fp.modified
    ensures res != FR_OK && !fp.modified ==> fs.wflag
    ensures old(fp.modified) ==>
      fp.dirSect < |old(fs.Logical())| && WindowOnEntry(fs.vol, fp.dirSect, old(fs.winsect), fs.winsect)
    ensures old(fp.modified) ==>
      EntryOnly(fs.vol, old(fs.Logical()), fs.Logical(), fp.dirSect, fp.dirOfs, FileSectors(fs.vol, fp.chain))
    ensures old(fp.modified) && fp.dirty ==> fp.modified
    ensures old(fp.modified) && !fp.modified ==> Recorded(fs.vol, fs.Logical(), fp.dirSect, fp.dirOfs, fp.View())
    ensures res == FR_OK && old(fp.modified) ==> !fs.wflag && !fp.dirty
    ensures res == FR_OK && old(fp.modified) ==> Recorded(fs.vol, fs.disk.image, fp.dirSect, fp.dirOfs, fp.View())
    ensures res == FR_OK && old(fp.modified) ==>
      && fp.dirSect < |fs.disk.image| && fp.dirOfs + 32 <= 512
      && EntryNames(fs.vol.fsType, fs.disk.image[fp.dirSect], fp.dirOfs, fp.sclust, fp.objsize)
      && EntryStamped(fs.disk.image[fp.dirSect], fp.dirOfs)
      && InPlace(fs.vol, fs.disk.image, fp.View())
  {
    hide Fatfs.Logical;
    hide Mirrored;
    hide Sound;
    hide Core;
    hide Table;
    hide Recorded;
    hide EntryOnly;
    hide FileSectors;
    hide EntryNames;
    hide EntryStamped;
    hide InPlace;
    VolumeBounds(fs.vol);
    res := FR_OK;
    if fp.modified {
      ghost var img, f := fs.Logical(), fp.View();
      DirClear(fs.vol, img, f, fs.winsect, fp.dirClust, fp.dirSect, fp.dirOfs);
      var ok := WriteBack(fs, fp);
      ghost var img1 := fs.Logical();
      if ok {
        res := SyncEntry(fs, fp);
        ViewInPlace(fs, fp);
      } else {
        res := FR_DISK_ERR;
        EntryUntouched(fs.vol, img1, fp.dirSect, fp.dirOfs);
      }
      EntryOnlyAfter(fs.vol, img, img1, fs.Logical(), fp.dirSect, fp.dirOfs, fp.chain);
    }
  }
}
