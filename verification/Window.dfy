/** The one-sector write-back window of a FAT volume over its drive, with a mirrored second FAT. */
module Window {
  import opened Bytes
  import opened FatCodec
  import opened Layout
  import opened Disk

  datatype FResult =
    | FR_OK
    | FR_DISK_ERR
    | FR_INT_ERR
    | FR_NO_FILE
    | FR_INVALID_NAME
    | FR_DENIED
    | FR_NO_FILESYSTEM

  /** The sector number the window takes when its contents are not valid. */
  const NO_SECTOR := 0xFFFF_FFFF

  function Blank(): Sector
  {
    seq(SS, _ => 0)
  }

  /** One sector of the logical volume: the dirty window where there is one, the second FAT blanked out. */
  function LogicalSector(v: Volume, raw: Image, dirty: bool, at: nat, w: Sector, s: nat): Sector
    requires s < |raw|
  {
    if InFat2(v, s) then Blank() else if dirty && s == at then w else raw[s]
  }

  /** The volume FatFs means: the raw drive overlaid with the dirty window, as seen through the first FAT. */
  function Overlay(v: Volume, raw: Image, dirty: bool, at: nat, w: Sector): (img: Image)
    ensures |img| == |raw|
  {
    seq(|raw|, s requires 0 <= s < |raw| => LogicalSector(v, raw, dirty, at, w, s))
  }

  /** The bytes of the first FAT of an image. */
  function FatBytes(v: Volume, img: Image): (b: seq<Byte>)
    requires v.fatbase + v.fsize <= |img|
    ensures |b| == SS * v.fsize
  {
    seq(SS * v.fsize, i requires 0 <= i < SS * v.fsize => FatByte(v, img, i))
  }

  function FatByte(v: Volume, img: Image, i: nat): Byte
    requires v.fatbase + v.fsize <= |img| && i < SS * v.fsize
  {
    img[v.fatbase + i / SS][i % SS]
  }

  /** The volume fits the drive, and sector numbers stay below NO_SECTOR. */
  predicate Fits(v: Volume, img: Image)
  {
    Sound(v) && End(v) <= |img| <= NO_SECTOR
  }

  lemma FatFits(v: Volume, img: Image)
    requires Fits(v, img)
    ensures v.fatbase + v.nFats * v.fsize <= v.database < |img|
    ensures v.fatbase + v.fsize <= v.database
    ensures v.nFats == 2 ==> v.fatbase + 2 * v.fsize <= v.database
  {
    ClusterInData(v, 2, ClusterSector(v, 2));
  }

  /** The value of FAT entry `c`, as get_fat reports it for a cluster in range. */
  function FatEntry(v: Volume, img: Image, c: nat): nat
    requires Fits(v, img) && c < v.nFatent
  {
    FatFits(v, img);
    EntryInFat(v, c);
    Entry(v.fsType, FatBytes(v, img), c)
  }

  /** The whole first FAT of an image, decoded. */
  function Table(v: Volume, img: Image): (t: seq<nat>)
    requires Fits(v, img)
    ensures |t| == v.nFatent
  {
    seq(v.nFatent, c requires 0 <= c < v.nFatent => FatEntry(v, img, c))
  }

  /** The reserved bits beside entry `c`. */
  function ReservedBits(v: Volume, img: Image, c: nat): nat
    requires Fits(v, img) && c < v.nFatent
  {
    FatFits(v, img);
    EntryInFat(v, c);
    Reserved(v.fsType, FatBytes(v, img), c)
  }

  ghost predicate SameFat1(v: Volume, a: Image, b: Image)
  {
    |a| == |b| && forall s :: InFat1(v, s) && 0 <= s < |a| ==> a[s] == b[s]
  }

  /** The table depends on the first FAT's sectors only. */
  lemma SameTable(v: Volume, a: Image, b: Image)
    requires Fits(v, a) && SameFat1(v, a, b)
    ensures Fits(v, b) && Table(v, a) == Table(v, b)
    ensures forall c :: 0 <= c < v.nFatent ==> ReservedBits(v, a, c) == ReservedBits(v, b, c)
  {
    FatFits(v, a);
    assert FatBytes(v, a) == FatBytes(v, b);
  }

  /** Both copies of the FAT agree on the raw drive. */
  ghost predicate Mirrored(v: Volume, raw: Image)
  {
    v.nFats == 2 ==>
      v.fatbase + 2 * v.fsize <= |raw| && forall s :: InFat1(v, s) ==> raw[s] == raw[s + v.fsize]
  }

  class Fatfs {
    const disk: Drive
    const vol: Volume
    const win: array<Byte>
    var winsect: nat
    var wflag: bool
    /** b7: FSInfo disabled, b0: FSInfo to be written. */
    var fsiFlag: nat
    var lastClst: nat
    var freeClst: nat

    /** The filesystem object as find_volume leaves it: geometry, window position and FSInfo hints set, nothing
        dirty. */
    constructor (disk: Drive, vol: Volume, win: array<Byte>, winsect: nat, fsiFlag: nat, lastClst: nat, freeClst: nat)
      ensures this.disk == disk && this.vol == vol && this.win == win && this.winsect == winsect && !wflag
      ensures this.fsiFlag == fsiFlag && this.lastClst == lastClst && this.freeClst == freeClst
    {
      this.disk, this.vol, this.win, this.winsect, this.wflag := disk, vol, win, winsect, false;
      this.fsiFlag, this.lastClst, this.freeClst := fsiFlag, lastClst, freeClst;
    }

    ghost predicate Shape()
      reads `wflag, `winsect, disk`image
    {
      && win.Length == SS
      && Fits(vol, disk.image)
      && (wflag ==> winsect < |disk.image| && !InFat2(vol, winsect))
    }

    ghost function Logical(): (img: Image)
      requires Shape()
      reads `wflag, `winsect, win, disk`image
      ensures |img| == |disk.image|
    {
      Overlay(vol, disk.image, wflag, winsect, win[..])
    }

    /** What find_volume leaves of any sound volume. */
    ghost predicate Mounted()
      reads this, win, disk
    {
      && Shape()
      && (disk.failed || Mirrored(vol, disk.image))
      && (!wflag && winsect < |disk.image| && !InFat2(vol, winsect) && !IsInfo(vol, winsect) ==>
           win[..] == disk.image[winsect])
      && lastClst < TWO32 && freeClst < TWO32
    }

    /** FSInfo, where it is in use, lies before the FAT. */
    ghost predicate Valid()
      reads this, win, disk
    {
      Mounted() && (vol.fsType == FAT32 && fsiFlag < 0x80 ==> vol.volbase + 1 < vol.fatbase)
    }

    /** The first FAT of the logical volume. */
    ghost function Fat(): (t: seq<nat>)
      requires Shape()
      reads `wflag, `winsect, win, disk`image
      ensures |t| == vol.nFatent
    {
      Table(vol, Logical())
    }

    /** The images written since the log was `before` all hold this first FAT. */
    ghost predicate LoggedFat(before: seq<Image>, img: Image)
      reads disk`log
    {
      && before <= disk.log
      && forall k :: |before| <= k < |disk.log| ==> SameFat1(vol, disk.log[k], img)
    }
  }

  /** Writing the window back does not change the logical volume, whatever becomes of the second FAT. */
  lemma WriteBackKeepsLogical(v: Volume, raw: Image, after: Image, dirty: bool, at: nat, w: Sector)
    requires |after| == |raw| && at < |raw|
    requires forall s :: 0 <= s < |raw| && s != at && !InFat2(v, s) ==> after[s] == raw[s]
    requires dirty || after[at] == w
    ensures Overlay(v, raw, true, at, w) == Overlay(v, after, dirty, at, w)
    ensures after[at] == w && !InFat2(v, at) ==> SameFat1(v, after, Overlay(v, raw, true, at, w))
  {
    Fat1NotFat2(v);
  }

  lemma Fat1NotFat2(v: Volume)
    ensures forall s :: InFat1(v, s) ==> !InFat2(v, s)
  {
  }

  /** A write outside the FATs leaves them mirrored. */
  lemma MirrorKept(v: Volume, raw: Image, after: Image, at: nat)
    requires Mirrored(v, raw) && |after| == |raw| && !InFat1(v, at) && !InFat2(v, at)
    requires forall s :: 0 <= s < |raw| && s != at ==> after[s] == raw[s]
    ensures Mirrored(v, after)
  {
  }

  /** So does a write of the same sector to both. */
  lemma MirrorMade(v: Volume, raw: Image, after: Image, at: nat)
    requires Mirrored(v, raw) && |after| == |raw| && InFat1(v, at)
    requires v.nFats == 2 ==> at + v.fsize < |raw| && after[at + v.fsize] == after[at]
    requires forall s :: 0 <= s < |raw| && s != at && s != at + v.fsize ==> after[s] == raw[s]
    ensures Mirrored(v, after)
  {
  }

  method SyncWindow(fs: Fatfs) returns (res: FResult)
    requires fs.Mounted()
    modifies fs`wflag, fs.disk
    ensures fs.Mounted() && fs.Logical() == old(fs.Logical())
    ensures res == FR_OK || (res == FR_DISK_ERR && fs.disk.failed)
    ensures res == FR_OK ==> !fs.wflag
    ensures res != FR_OK ==> fs.wflag
    ensures !old(fs.wflag) ==> res == FR_OK && unchanged(fs.disk)
    ensures old(fs.wflag) && !fs.disk.failed ==>
      && fs.winsect < |old(fs.disk.image)|
      && fs.disk.image ==
         if fs.vol.nFats == 2 && fs.vol.fatbase <= fs.winsect < fs.vol.fatbase + fs.vol.fsize then
           old(fs.disk.image)[fs.winsect := fs.win[..]][fs.winsect + fs.vol.fsize := fs.win[..]]
         else old(fs.disk.image)[fs.winsect := fs.win[..]]
    ensures old(fs.disk.failed) ==> fs.disk.failed
    ensures !fs.disk.failed ==> fs.LoggedFat(old(fs.disk.log), fs.Logical())
    ensures fs.wflag ==> old(fs.wflag)
  {
    hide Sound;
    hide Overlay;
    hide Mirrored;
    hide SameFat1;
    var v := fs.vol;
    FatFits(v, fs.disk.image);
    res := FR_OK;
    if fs.wflag {
      Sub32IsRangeTest(fs.winsect, v.fatbase, v.fsize);
      ghost var raw, w: Sector := fs.disk.image, fs.win[..];
      var ok := fs.disk.WriteSector(fs.win, fs.winsect);
      WriteBackKeepsLogical(v, raw, fs.disk.image, !ok, fs.winsect, w);
      if ok {
        fs.wflag := false;
        if Sub32(fs.winsect, v.fatbase) < v.fsize {
          if v.nFats == 2 {
            var _ := fs.disk.WriteSector(fs.win, fs.winsect + v.fsize);
            WriteBackKeepsLogical(v, raw, fs.disk.image, false, fs.winsect, w);
          }
          if !fs.disk.failed { MirrorMade(v, raw, fs.disk.image, fs.winsect); }
        } else if !fs.disk.failed {
          MirrorKept(v, raw, fs.disk.image, fs.winsect);
        }
      } else {
        res := FR_DISK_ERR;
      }
    }
  }

  method MoveWindow(fs: Fatfs, sector: nat) returns (res: FResult)
    requires fs.Valid() && sector < |fs.disk.image|
    modifies fs`wflag, fs`winsect, fs.win, fs.disk
    ensures fs.Valid() && fs.Logical() == old(fs.Logical())
    ensures res == FR_OK || (res == FR_DISK_ERR && fs.disk.failed)
    ensures res == FR_OK ==> fs.winsect == sector
    ensures res == FR_OK && !InFat2(fs.vol, sector) && !IsInfo(fs.vol, sector) ==> fs.win[..] == fs.Logical()[sector]
    ensures fs.winsect in {old(fs.winsect), sector, NO_SECTOR}
    ensures old(fs.disk.failed) ==> fs.disk.failed
    ensures !fs.disk.failed ==> fs.LoggedFat(old(fs.disk.log), fs.Logical())
    ensures fs.wflag ==> old(fs.wflag)
  {
    res := FR_OK;
    if sector != fs.winsect {
      res := SyncWindow(fs);
      if res == FR_OK {
        var at := sector;
        var ok := fs.disk.ReadSector(fs.win, sector);
        if !ok {
          at := NO_SECTOR;
          res := FR_DISK_ERR;
        }
        fs.winsect := at;
        assert fs.Logical() == old(fs.Logical());
      }
    }
  }
}
