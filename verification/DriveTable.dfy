/** The CP/M drive table: which file a drive is in, its geometry, and where a sector of it lies in that file. */
module DriveTable {
  import opened Arith
  import opened Bytes

  const CPM_SECTOR_SIZE := 128
  const MULTICOMP_DRIVE_SIZE := 8 * 1024 * 1024
  const MAX_MOUNTED_DRIVES := 6
  const MAX_LOGICAL_DRIVES := 16

  /** FpArray's last entry, meant for the boot image. */
  const BOOT_FILE_INDEX := MAX_MOUNTED_DRIVES

  /** struct dskdef; `fp` is an index into FpArray. */
  datatype Dsk = Dsk(fp: Option<nat>, tracks: nat, sectors: nat, flush: bool, multi: bool)

  /** Tracks and sectors of the image sizes MountCpmDrive knows. */
  function FormatLookup(size: nat): Option<(nat, nat)>
  {
    match size
    case 256256 => Some((77, 26))
    case 4177920 => Some((255, 128))
    case 8388608 => Some((256, 128))
    case 536870912 => Some((256, 16384))
    case _ => None
  }

  /** A drive, track and sector as the Z80 addresses them. */
  datatype Triple = Triple(drive: nat, track: nat, sector: nat)

  /** The triple names a sector of a mounted drive. */
  predicate Addressable(disks: seq<Dsk>, t: Triple)
  {
    && t.drive < |disks| && disks[t.drive].fp.Some?
    && t.track < disks[t.drive].tracks && 1 <= t.sector <= disks[t.drive].sectors
  }

  /** The system track of a Multicomp drive A, kept in the boot image: unless that has had to give up its place in
      FpArray to the last of seven images, which is then the Multicomp image itself. */
  predicate Redirected(disks: seq<Dsk>, images: nat, t: Triple)
  {
    images <= 6 && t.drive == 0 < |disks| && disks[0].multi && t.track == 0
  }

  /** Where fdco_out seeks to for a triple. */
  function BlockPosition(disks: seq<Dsk>, t: Triple): int
    requires t.drive < |disks|
  {
    CPM_SECTOR_SIZE * (t.track * disks[t.drive].sectors + t.sector - 1) + if disks[t.drive].multi
      then MULTICOMP_DRIVE_SIZE * t.drive else 0
  }

  /** The checks of fdco_out on drive, track and sector; they let sector 0
      and the track past the last one through. */
  predicate Passes(disks: seq<Dsk>, t: Triple)
  {
    t.drive < |disks| && disks[t.drive].fp.Some? && t.track <= disks[t.drive].tracks
      && t.sector <= disks[t.drive].sectors
  }

  /** A request for `t` passes the checks and is served at the place of the sector `u`. */
  predicate Means(disks: seq<Dsk>, images: nat, t: Triple, u: Triple)
  {
    && Passes(disks, t) && !Redirected(disks, images, t)
    && Addressable(disks, u) && disks[t.drive].fp == disks[u.drive].fp
       && BlockPosition(disks, t) == BlockPosition(disks, u)
  }

  /** A sector that is there means itself, and nothing else. */
  lemma MeansItself(disks: seq<Dsk>, sizes: seq<nat>, t: Triple)
    requires Addressable(disks, t) && Laid(disks, sizes) && !Redirected(disks, |sizes|, t)
    ensures Means(disks, |sizes|, t, t) && forall u :: Means(disks, |sizes|, t, u) ==> u == t
  {
    hide Laid;
    hide BlockPosition;
    forall u | Means(disks, |sizes|, t, u) && u != t
      ensures false
    {
      PositionsDisjoint(disks, sizes, t, u);
    }
  }

  /** Sector 0 is the last sector of the track before. */
  lemma SectorZero(disks: seq<Dsk>, images: nat, d: nat, track: nat)
    requires Passes(disks, Triple(d, track, 0)) && track > 0
      && Addressable(disks, Triple(d, track - 1, disks[d].sectors))
    ensures Means(disks, images, Triple(d, track, 0), Triple(d, track - 1, disks[d].sectors))
  {
    var s := disks[d].sectors;
    assert track * s - 1 == (track - 1) * s + s - 1;
  }

  /** Sector 0 of track 0 of a Multicomp drive is the last sector of the drive before. */
  lemma SectorZeroOfNext(disks: seq<Dsk>, sizes: seq<nat>, d: nat)
    requires Laid(disks, sizes) && d + 1 < |disks| && disks[d].multi && disks[d + 1].multi
    ensures Means(disks, |sizes|, Triple(d + 1, 0, 0), Triple(d, 511, 128))
  {
  }

  /** Nothing is at the track past the last one of a drive with an image of its own. */
  lemma TrackPastLast(disks: seq<Dsk>, sizes: seq<nat>, d: nat, sector: nat, u: Triple)
    requires Laid(disks, sizes) && d < |disks| && !disks[d].multi && sector > 0
    ensures !Means(disks, |sizes|, Triple(d, disks[d].tracks, sector), u)
  {
    var t := Triple(d, disks[d].tracks, sector);
    if Means(disks, |sizes|, t, u) {
      assert u.drive == d;
      SectorNumber(disks[d].tracks, disks[d].sectors, u.track, u.sector);
    }
  }

  /** A drive's image holds the drive. */
  predicate ImageHolds(d: Dsk, drive: nat, size: nat)
  {
    if d.multi then d.tracks == 512 && d.sectors == 128 && MULTICOMP_DRIVE_SIZE * (drive + 1) <= size
    else CPM_SECTOR_SIZE * (d.tracks * d.sectors) <= size
  }

  /** The table after mounting: `sizes` are the mounted images' sizes. Only Multicomp drives share an image, drive
      A's. */
  ghost predicate Laid(disks: seq<Dsk>, sizes: seq<nat>)
  {
    && |disks| == MAX_LOGICAL_DRIVES
    && (forall i :: 0 <= i < |sizes| ==> sizes[i] < TWO32)
    && (forall d :: 0 <= d < |disks| && disks[d].fp.Some? ==>
          disks[d].fp.value < |sizes| && ImageHolds(disks[d], d, sizes[disks[d].fp.value]))
    && (forall d :: 0 <= d < |disks| && disks[d].multi ==>
         disks[d].fp.Some? && disks[0].multi && disks[0].fp == disks[d].fp)
    && (forall d, e :: (0 <= d < |disks| && 0 <= e < |disks| && d != e && disks[d].fp.Some?
         && disks[d].fp == disks[e].fp) ==>
          disks[d].multi && disks[e].multi)
    && (forall d :: 0 <= d < |disks| && disks[d].flush ==> disks[d].fp.Some?)
  }

  /** Sector number within a drive. */
  lemma SectorNumber(tracks: nat, sectors: nat, track: nat, sector: nat)
    requires track < tracks && 1 <= sector <= sectors
    ensures 0 <= track * sectors + sector - 1 < tracks * sectors
  {
    MulStep(sectors, track, tracks);
    MulMono(sectors, 0, track);
  }

  /** A triple's block lies within its image, at a position 32 bits can hold. */
  lemma PositionInFile(disks: seq<Dsk>, sizes: seq<nat>, t: Triple)
    requires Laid(disks, sizes) && Addressable(disks, t)
    ensures 0 <= BlockPosition(disks, t)
      && BlockPosition(disks, t) + CPM_SECTOR_SIZE <= sizes[disks[t.drive].fp.value] < TWO32
  {
    var d := disks[t.drive];
    SectorNumber(d.tracks, d.sectors, t.track, t.sector);
  }

  /** What fdco_out computes is the position of the sector meant. */
  lemma SeekPosition(disks: seq<Dsk>, sizes: seq<nat>, t: Triple, u: Triple)
    requires Laid(disks, sizes) && Means(disks, |sizes|, t, u)
    ensures var d, first := disks[t.drive], CPM_SECTOR_SIZE * (t.track * disks[t.drive].sectors + t.sector - 1) % TWO32;
            BlockPosition(disks, u) == if d.multi && t.drive > 0 then (first + MULTICOMP_DRIVE_SIZE * t.drive) % TWO32
              else first
    ensures disks[u.drive].fp.value < |sizes|
      && BlockPosition(disks, u) + CPM_SECTOR_SIZE <= sizes[disks[u.drive].fp.value] < TWO32
  {
    hide Laid;
    PositionInFile(disks, sizes, u);
    DriveImage(disks, sizes, t.drive);
    var d, first := disks[t.drive], CPM_SECTOR_SIZE * (t.track * disks[t.drive].sectors + t.sector - 1);
    Wraps(first, if d.multi then MULTICOMP_DRIVE_SIZE * t.drive else 0);
    if !(d.multi && t.drive > 0) {
      Wraps(first, 0);
    }
  }

  /** Sums that wrap around and back. */
  lemma Wraps(x: int, k: nat)
    requires 0 <= x + k < TWO32
    ensures (x % TWO32 + k) % TWO32 == x + k
    ensures k == 0 ==> x % TWO32 == x
  {
    DivModFacts(x, TWO32);
    DivModUnique(x % TWO32 + k, TWO32, -(x / TWO32), x + k);
  }

  /** A drive's image, and who is marked for it. */
  lemma DriveImage(disks: seq<Dsk>, sizes: seq<nat>, d: nat)
    requires Laid(disks, sizes) && d < |disks| && disks[d].fp.Some?
    ensures disks[d].fp.value < |sizes| && (disks[d].multi ==> disks[0].multi && disks[0].fp == disks[d].fp)
  {
  }

  /** Track and sector follow from the sector number. */
  lemma SectorNumberUnique(sectors: nat, t1: nat, s1: nat, t2: nat, s2: nat)
    requires 1 <= s1 <= sectors && 1 <= s2 <= sectors && t1 * sectors + s1 == t2 * sectors + s2
    ensures t1 == t2 && s1 == s2
  {
    DivModUnique(t1 * sectors + s1 - 1, sectors, t1, s1 - 1);
    DivModUnique(t1 * sectors + s1 - 1, sectors, t2, s2 - 1);
  }

  /** Different triples have disjoint blocks: in different files, or a block apart in one. */
  lemma PositionsDisjoint(disks: seq<Dsk>, sizes: seq<nat>, t: Triple, u: Triple)
    requires Laid(disks, sizes) && Addressable(disks, t) && Addressable(disks, u) && t != u
    requires disks[t.drive].fp == disks[u.drive].fp
    ensures BlockPosition(disks, t) + CPM_SECTOR_SIZE <= BlockPosition(disks, u)
      || BlockPosition(disks, u) + CPM_SECTOR_SIZE <= BlockPosition(disks, t)
  {
    var d, e := disks[t.drive], disks[u.drive];
    if t.drive == u.drive {
      if t.track * d.sectors + t.sector == u.track * d.sectors + u.sector {
        SectorNumberUnique(d.sectors, t.track, t.sector, u.track, u.sector);
      }
    } else {
      SectorNumber(512, 128, t.track, t.sector);
      SectorNumber(512, 128, u.track, u.sector);
    }
  }

  /** Laying a Multicomp image over the first `n` drives of a table without Multicomp drives. */
  lemma MulticompLaid(disks: seq<Dsk>, sizes: seq<nat>, after: seq<Dsk>, size: nat, n: nat)
    requires Laid(disks, sizes) && |after| == |disks| && n <= |disks| && size < TWO32
      && MULTICOMP_DRIVE_SIZE * n <= size
    requires forall d :: 0 <= d < |disks| ==> !disks[d].multi
    requires forall d :: 0 <= d < n ==> after[d] == Dsk(Some(|sizes|), 512, 128, disks[d].flush, true)
    requires forall d :: n <= d < |after| ==> after[d] == disks[d]
    ensures Laid(after, sizes + [size])
  {
    forall d | 0 <= d < |after| && after[d].fp.Some?
      ensures after[d].fp.value < |sizes + [size]| && ImageHolds(after[d], d, (sizes + [size])[after[d].fp.value])
    {
      if d >= n {
        assert ImageHolds(disks[d], d, sizes[disks[d].fp.value]);
      }
    }
  }

  /** The four image sizes with their tracks and sectors, which fill them but for that of 8 MB: half of it is out of
      reach of a drive with an image of its own. */
  lemma Formats(size: nat)
    ensures match FormatLookup(size)
            case None => size !in {256256, 4177920, 8388608, 536870912}
            case Some((tracks, sectors)) =>
              && (size, tracks, sectors)
                   in {(256256, 77, 26), (4177920, 255, 128), (8388608, 256, 128), (536870912, 256, 16384)}
              && 128 * tracks * sectors == if size == 8388608 then 4194304 else size
  {
  }

  /** An image of a known format holds the drive. */
  lemma FormatFits(size: nat)
    requires FormatLookup(size) != None
    ensures var (tracks, sectors) := FormatLookup(size).value;
            CPM_SECTOR_SIZE * (tracks * sectors) <= size
  {
  }

  /** Changing a drive's format without its image. */
  lemma Reformatted(disks: seq<Dsk>, sizes: seq<nat>, drive: nat, size: nat)
    requires Laid(disks, sizes) && drive < |disks| && FormatLookup(size) != None && !disks[drive].multi
    ensures disks[drive].fp.Some? ==> disks[drive].fp.value < |sizes|
    ensures var (tracks, sectors) := FormatLookup(size).value;
            Laid(disks[drive := disks[drive].(tracks := tracks, sectors := sectors)], sizes) <==>
            disks[drive].fp.Some? ==> CPM_SECTOR_SIZE * (tracks * sectors) <= sizes[disks[drive].fp.value]
  {
    hide FormatLookup;
    var (tracks, sectors) := FormatLookup(size).value;
    var after := disks[drive := disks[drive].(tracks := tracks, sectors := sectors)];
    assert after[drive] == disks[drive].(tracks := tracks, sectors := sectors);
    forall d | 0 <= d < |after| && after[d].fp.Some? && d != drive
      ensures after[d].fp.value < |sizes| && ImageHolds(after[d], d, sizes[after[d].fp.value])
    {
      assert after[d] == disks[d];
    }
  }

  /** Giving a drive an image of its own. */
  lemma Remounted(disks: seq<Dsk>, sizes: seq<nat>, drive: nat, size: nat)
    requires Laid(disks, sizes) && drive < |disks| && FormatLookup(size) != None && !disks[drive].multi && size < TWO32
    ensures var (tracks, sectors) := FormatLookup(size).value;
            Laid(disks[drive := disks[drive].(tracks := tracks, sectors := sectors, fp := Some(|sizes|))],
                sizes + [size])
  {
    hide FormatLookup;
    FormatFits(size);
    var (tracks, sectors) := FormatLookup(size).value;
    var after := disks[drive := disks[drive].(tracks := tracks, sectors := sectors, fp := Some(|sizes|))];
    forall d | 0 <= d < |after| && after[d].fp.Some?
      ensures after[d].fp.value < |sizes + [size]| && ImageHolds(after[d], d, (sizes + [size])[after[d].fp.value])
    {
      if d != drive {
        assert after[d] == disks[d];
      }
    }
  }

  /** Drive G with a floppy image, and then a second image for it, of a hard disk, that cannot be opened. */
  lemma RemountExample()
    ensures var disks := seq(MAX_LOGICAL_DRIVES,
        d => if d == 6 then Dsk(Some(0), 77, 26, false, false) else Dsk(None, 0, 0, false, false));
            && Laid(disks, [256256]) && FormatLookup(4177920) == Some((255, 128))
            && !Laid(disks[6 := disks[6].(tracks := 255, sectors := 128)], [256256])
  {
    var disks := seq(MAX_LOGICAL_DRIVES,
        d => if d == 6 then Dsk(Some(0), 77, 26, false, false) else Dsk(None, 0, 0, false, false));
    Reformatted(disks, [256256], 6, 4177920);
  }

  /** The seventh image is the Multicomp image, if any drive is in one. */
  predicate BootTaken(disks: seq<Dsk>, images: nat)
    requires |disks| > 0
  {
    images > MAX_MOUNTED_DRIVES && disks[0].multi ==> disks[0].fp == Some(BOOT_FILE_INDEX)
  }

  /** The drive table while images are being mounted. */
  class Mounter {
    var disks: seq<Dsk>
    /** gMountedDrives: the next free FpArray entry. */
    var mounted: nat
    /** The sizes of the images opened so far. */
    ghost var sizes: seq<nat>

    ghost predicate Valid()
      reads this
    {
      mounted == |sizes| <= BOOT_FILE_INDEX + 1 && |disks| == MAX_LOGICAL_DRIVES && Laid(disks, sizes)
        && BootTaken(disks, mounted)
    }

    constructor ()
      ensures Valid() && mounted == 0 && forall d :: 0 <= d < |disks| ==>
        disks[d].fp == None && !disks[d].multi && !disks[d].flush
    {
      disks := seq(MAX_LOGICAL_DRIVES, _ => Dsk(None, 0, 0, false, false));
      mounted := 0;
      sizes := [];
    }

    /** Mount the image of one drive; `found` is whether f_open succeeds. 0 on success. A drive mounted before changes
        its image; the table goes wrong exactly when the new one cannot be opened and its format is larger than the old
        image. */
    method MountCpmDrive(drive: int, size: nat, found: bool) returns (ret: nat)
      requires Valid() && size < TWO32 && (0 <= drive < MAX_LOGICAL_DRIVES ==> !disks[drive].multi)
      modifies this
      ensures ret == 0 <==>
        old(mounted) < 6 && 0 <= drive < 16 && size in {256256, 4177920, 8388608, 536870912} && found
      ensures Valid() <==>
        !(old(mounted) < MAX_MOUNTED_DRIVES && 0 <= drive < MAX_LOGICAL_DRIVES && old(Outgrows(disks[drive], size))
            && !found)
      ensures ret != 0 ==> mounted == old(mounted) && sizes == old(sizes)
      ensures ret == 0 ==> sizes == old(sizes) + [size] && disks[drive].fp == Some(old(mounted)) && !disks[drive].multi
      ensures ret == 0 ==>
        (size, disks[drive].tracks, disks[drive].sectors)
          in {(256256, 77, 26), (4177920, 255, 128), (8388608, 256, 128), (536870912, 256, 16384)}
      ensures |disks| == MAX_LOGICAL_DRIVES && forall d :: 0 <= d < MAX_LOGICAL_DRIVES && d != drive ==>
        disks[d] == old(disks[d])
      ensures 0 <= drive < 16 && disks != old(disks) ==>
        (size, disks[drive].tracks, disks[drive].sectors)
          in {(256256, 77, 26), (4177920, 255, 128), (8388608, 256, 128), (536870912, 256, 16384)}
      ensures 0 <= drive < MAX_LOGICAL_DRIVES && ret != 0 ==> disks[drive].fp == old(disks[drive].fp)
    {
      hide Laid;
      hide FormatLookup;
      ret := 1;
      if mounted >= MAX_MOUNTED_DRIVES { return; }
      if drive < 0 || drive >= MAX_LOGICAL_DRIVES { return; }
      var format := FormatLookup(size);
      Formats(size);
      if format == None { return; }
      Reformatted(disks, sizes, drive, size);
      FormatFits(size);
      disks := disks[drive := disks[drive].(tracks := format.value.0, sectors := format.value.1)];
      if !found { return; }
      Remounted(old(disks), sizes, drive, size);
      sizes := sizes + [size];
      disks := disks[drive := disks[drive].(fp := Some(mounted))];
      assert disks ==
        old(disks)[drive := old(disks[drive]).(tracks := format.value.0, sectors := format.value.1,
            fp := Some(mounted))];
      mounted := mounted + 1;
      ret := 0;
    }

    /** The drive is mounted, and an image of `size` bytes is of a format too large for the drive's image. */
    ghost predicate Outgrows(d: Dsk, size: nat)
      reads this
    {
      && FormatLookup(size) != None && d.fp.Some? && d.fp.value < |sizes|
      && var (tracks, sectors) := FormatLookup(size).value;
         CPM_SECTOR_SIZE * (tracks * sectors) > sizes[d.fp.value]
    }

    /** Mount a Multicomp image as drives A, B, ...: one for every 8 MB, up to 16, or to 6 beside other drives. Behind
        six other images it is opened in the boot image's entry. */
    method MountMulticomp(size: nat, only: bool, found: bool) returns (ret: nat, n: nat)
      requires Valid() && size < TWO32 && mounted <= MAX_MOUNTED_DRIVES
      requires forall d :: 0 <= d < MAX_LOGICAL_DRIVES ==> !disks[d].multi
      modifies this
      ensures Valid() && (ret == 0 <==> found) && mounted == old(mounted) + (if found then 1 else 0)
      ensures !found ==> n == 0 && sizes == old(sizes)
      ensures found ==> sizes == old(sizes) + [size]
      ensures n <= (if only then 16 else 6) && 8388608 * n <= size
      ensures found && n < (if only then 16 else 6) ==> size < 8388608 * (n + 1)
      ensures forall d :: 0 <= d < n ==> disks[d] == Dsk(Some(old(mounted)), 512, 128, old(disks[d].flush), true)
      ensures forall d :: n <= d < MAX_LOGICAL_DRIVES ==> disks[d] == old(disks[d])
    {
      hide Laid;
      if !found { return 1, 0; }
      ret := 0;
      ghost var before, images := disks, sizes;
      var fp := mounted;
      mounted := mounted + 1;
      sizes := sizes + [size];
      n := size / MULTICOMP_DRIVE_SIZE;
      if only {
        if n > 16 { n := 16; }
      } else {
        if n > 6 { n := 6; }
      }
      for i := 0 to n
        invariant |disks| == MAX_LOGICAL_DRIVES && mounted == fp + 1 && sizes == old(sizes) + [size]
        invariant forall d :: 0 <= d < i ==> disks[d] == Dsk(Some(fp), 512, 128, old(disks[d].flush), true)
        invariant forall d :: i <= d < MAX_LOGICAL_DRIVES ==> disks[d] == old(disks[d])
      {
        disks := disks[i := disks[i].(fp := Some(fp), multi := true, sectors := 128, tracks := 512)];
      }
      MulticompLaid(before, images, disks, size, n);
    }
  }

  /** In dual mode six images with letters G to J, two of them twice, and then the Multicomp image: that one takes the
      boot image's entry, so that nothing is redirected any more. */
  method SevenImages() returns (m: Mounter)
    ensures m.Valid() && m.mounted == 7 && m.disks[0].multi && m.disks[0].fp == Some(BOOT_FILE_INDEX)
    ensures forall t :: !Redirected(m.disks, |m.sizes|, t)
  {
    m := new Mounter();
    for i := 0 to 6
      invariant fresh(m) && m.Valid() && m.mounted == i && forall d :: 0 <= d < MAX_LOGICAL_DRIVES ==> !m.disks[d].multi
    {
      var ret := m.MountCpmDrive(6 + i % 4, 256256, true);
    }
    var ret, n := m.MountMulticomp(MULTICOMP_DRIVE_SIZE, false, true);
  }
}
