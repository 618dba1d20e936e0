/** The invariants can be met: an empty FAT16 volume of one cluster, with one empty file open for writing. */
module Witness {
  import opened Bytes
  import opened FatCodec
  import opened Layout
  import opened Disk
  import opened Window
  import opened Chains
  import opened Alloc
  import opened FileData
  import opened FileState
  import opened File
  import opened DirEntry
  import opened OnDisk
  import opened OpenFiles
  import opened FileRun
  import FO = FileOpen
  import Mount

  /** Boot sector, one FAT sector, one root directory sector, one cluster. */
  function Small(): Volume
  {
    Volume(FAT16, 1, 1, 16, 3, 1, 0, 1, 2, 3)
  }

  function Zeroed(): Image
  {
    [Blank(), Blank(), Blank(), Blank()]
  }

  lemma SmallFits()
    ensures Fits(Small(), Zeroed()) && End(Small()) == 4
  {
  }

  lemma ZeroEntry()
    ensures LdClust(FAT16, Blank(), 0) == 0 && LdSize(Blank(), 0) == 0
  {
  }

  /** A zero directory entry is an empty file. */
  lemma EmptyRecorded(f: FileView)
    requires f.sclust == 0 && f.objsize == 0 && f.chain == [] && f.data == []
    ensures Recorded(Small(), Zeroed(), 2, 0, f) && DirAt(Small(), Table(Small(), Zeroed()), 0, 2, 0, [])
  {
    hide Table;
    hide Sound;
    hide LdClust;
    hide LdSize;
    SmallFits();
    ZeroEntry();
    assert Zeroed()[2] == Blank();
    assert FileSectors(Small(), []) == [];
  }

  method EmptyVolume() returns (fs: Fatfs, files: seq<Fil>)
    ensures Sane(fs, files) && |files| == 1 && files[0].canRead && files[0].canWrite && files[0].data == []
    ensures !fs.disk.failed && CountOk(fs) && !HasOne(fs.Fat())
  {
    hide Sound;
    hide Recorded;
    hide Table;
    SmallFits();
    var disk := new Drive(Zeroed());
    var win := new Byte[SS](_ => 0);
    assert win[..] == Blank();
    fs := new Fatfs(disk, Small(), win, 2, 0x80, NO_SECTOR, NO_SECTOR);
    var fp := new Fil(true, true, 2, 0, 0, 0, 0, [], []);
    files := [fp];
    assert fs.Logical() == Zeroed();
    EmptyRecorded(fp.View());
    FO.FreshCore(Small(), Zeroed(), 2, 0, fp.View(), 0);
    ZeroTable();
    assert Handles(fs, files) == [HandleOf(fp)];
  }

  /** What find_volume leaves of a sound volume with FSInfo off the FAT is where a run begins. */
  method Start(disk: Drive, win: array<Byte>, bsect: nat) returns (res: FResult, fs: Fatfs?)
    requires win.Length == SS && bsect < |disk.image| <= NO_SECTOR && win[..] == disk.image[bsect]
    modifies win, disk`failed
    ensures res == FR_OK <==> fs != null && Mount.Accepts(Mount.Fields(disk.image[bsect]))
    ensures (fs != null && Fits(fs.vol, disk.image) && Mirrored(fs.vol, disk.image)
      && Mount.InfoClear(disk.image[bsect])) ==> Sane(fs, [])
  {
    hide Mount.Accepts;
    hide Mount.Fields;
    hide Mount.InfoClear;
    hide Sound;
    hide Mirrored;
    res, fs := Mount.FindVolume(disk, win, bsect);
    if fs != null && Fits(fs.vol, disk.image) && Mirrored(fs.vol, disk.image) && Mount.InfoClear(disk.image[bsect]) {
      NothingOpen(fs);
    }
  }

  lemma ZeroTable()
    ensures Fits(Small(), Zeroed()) && forall c :: 0 <= c < 3 ==> Table(Small(), Zeroed())[c] == 0
  {
    hide Sound;
    SmallFits();
    forall c | 0 <= c < 3
      ensures FatEntry(Small(), Zeroed(), c) == 0
    {
      assert FatBytes(Small(), Zeroed())[2 * c] == FatByte(Small(), Zeroed(), 2 * c);
      assert FatBytes(Small(), Zeroed())[2 * c + 1] == FatByte(Small(), Zeroed(), 2 * c + 1);
    }
  }
}
