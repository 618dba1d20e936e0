/** The file object and the pieces f_read, f_write, f_lseek, f_truncate and f_sync share. */
module File {
  import opened Arith
  import opened Bytes
  import opened FatCodec
  import opened Layout
  import opened Disk
  import opened Window
  import opened FatAccess
  import opened Chains
  import opened Alloc
  import opened FileData
  import opened DataIo
  import opened FileState

  class Fil {
    const buf: array<Byte>
    /** FA_READ and FA_WRITE, fixed when the file is opened. */
    const canRead: bool
    const canWrite: bool
    /** Where the directory entry lies: its sector and the offset in it. */
    const dirSect: nat
    const dirOfs: nat
    /** The directory cluster that sector is in, or 0 for a static root directory. */
    ghost const dirClust: nat
    var sclust: nat
    var objsize: nat
    /** FA_MODIFIED and FA_DIRTY. */
    var modified: bool
    var dirty: bool
    var err: FResult
    var fptr: nat
    var clust: nat
    var sect: nat
    ghost var chain: seq<nat>
    ghost var data: Content

    /** A file as f_open leaves it: position 0, no sector in the buffer. */
    constructor (canRead: bool, canWrite: bool, dirSect: nat, dirOfs: nat, sclust: nat, objsize: nat,
                 ghost dirClust: nat, ghost chain: seq<nat>, ghost data: Content)
      ensures this.canRead == canRead && this.canWrite == canWrite
      ensures this.dirSect == dirSect && this.dirOfs == dirOfs && this.dirClust == dirClust
      ensures buf.Length == SS && fresh(buf) && !modified && err == FR_OK
      ensures View() == FileView(sclust, objsize, false, 0, 0, 0, buf[..], chain, data)
    {
      this.canRead, this.canWrite := canRead, canWrite;
      this.dirSect, this.dirOfs, this.dirClust := dirSect, dirOfs, dirClust;
      this.sclust, this.objsize, this.modified, this.dirty := sclust, objsize, false, false;
      this.err, this.fptr, this.clust, this.sect := FR_OK, 0, 0, 0;
      this.chain, this.data := chain, data;
      this.buf := new Byte[SS](_ => 0);
    }

    ghost function View(): FileView
      requires buf.Length == SS
      reads `sclust, `objsize, `dirty, `fptr, `clust, `sect, `chain, `data, buf
    {
      FileView(sclust, objsize, dirty, fptr, clust, sect, buf[..], chain, data)
    }

    ghost predicate Shape(fs: Fatfs)
    {
      buf.Length == SS && buf != fs.win
    }

    /** Sound but for the position clauses: the state between the steps of a transfer. */
    ghost predicate Ready(fs: Fatfs)
      reads `sclust, `objsize, `dirty, `fptr, `clust, `sect, `chain, `data, buf, fs, fs.win, fs.disk
    {
      Shape(fs) && fs.Valid() && Core(fs.vol, fs.Logical(), fs.winsect, View())
    }

    ghost predicate Valid(fs: Fatfs)
      reads `sclust, `objsize, `dirty, `fptr, `clust, `sect, `chain, `data, buf, fs, fs.win, fs.disk
    {
      Ready(fs) && Position(fs.vol, View())
    }
  }

  lemma ViewInPlace(fs: Fatfs, fp: Fil)
    requires fp.Ready(fs)
    ensures InPlace(fs.vol, fs.disk.image, fp.View())
  {
    hide InPlace;
    hide Overlay;
    hide Core;
    AllInPlace(fs.vol, fs.disk.image, fs.wflag, fs.winsect, fs.win[..], fp.View());
  }

  /** A file's sector, as the drive sees it. */
  lemma OwnSector(fs: Fatfs, fp: Fil, q: nat)
    requires fp.Ready(fs) && q < |fp.chain| * fs.vol.csize
    ensures DataSectors(fs, FileSectors(fs.vol, fp.chain)[q], 1) && FileSectors(fs.vol, fp.chain)[q] < |fs.Logical()|
    ensures !InFat1(fs.vol, FileSectors(fs.vol, fp.chain)[q])
  {
    FileSectorsSound(fs.vol, fs.Logical(), fp.sclust, fp.chain);
    assert FileSectors(fs.vol, fp.chain)[q] != fs.winsect;
  }

  /** Whatever a failed write leaves in the sector of a dirty buffer, the file's content is still there to be written
      again. */
  lemma JunkUnderDirty(v: Volume, a: Image, b: Image, ws: nat, f: FileView)
    requires Fits(v, a) && Core(v, a, ws, f) && f.dirty && |b| == |a| && SameFat1(v, b, a)
    requires forall k :: 0 <= k < |a| && k != f.sect ==> b[k] == a[k]
    ensures Fits(v, b) && Core(v, b, ws, f) && Frame(v, a, b, f.chain, f.chain)
  {
    hide FileSectors;
    hide Table;
    SameTable(v, a, b);
  }

  /** Write the buffer to its sector if it is dirty. */
  method WriteBack(fs: Fatfs, fp: Fil) returns (ok: bool)
    requires fp.Ready(fs)
    modifies fp`dirty, fs.disk
    ensures fs.Valid() && (old(fs.disk.failed) ==> fs.disk.failed)
    ensures !ok ==> fs.disk.failed
    ensures ok ==> fp.Ready(fs) && fp.View() == old(fp.View()).(dirty := false)
    ensures !ok ==> fp.Ready(fs) && fp.View() == old(fp.View()) && fp.dirty
    ensures Frame(fs.vol, old(fs.Logical()), fs.Logical(), fp.chain, fp.chain)
    ensures fs.Fat() == old(fs.Fat()) && SameFat1(fs.vol, fs.Logical(), old(fs.Logical()))
  {
    hide FileSectors;
    hide Table;
    hide Fatfs.Logical;
    ghost var img := fs.Logical();
    ok := true;
    if fp.dirty {
      ghost var secs := FileSectors(fs.vol, fp.chain);
      ghost var q :| 0 <= q < |secs| && secs[q] == fp.sect;
      OwnSector(fs, fp, q);
      ok := WriteData(fs, fp.buf, fp.sect);
      if ok {
        HoldsFlush(img, secs, fp.data, fp.sect, fp.buf[..]);
        fp.dirty := false;
      } else {
        JunkUnderDirty(fs.vol, img, fs.Logical(), fs.winsect, fp.View());
      }
    }
  }

  /** create_chain on the file's own chain: the cluster after `prev`, its `k`-th, newly linked if the chain ends
      there. */
  method Stretch(fs: Fatfs, fp: Fil, ghost k: nat, prev: nat) returns (clst: nat)
    requires fp.Ready(fs) && k <= |fp.chain| && (k == 0 ==> fp.chain == [])
    requires prev == if k == 0 then 0 else fp.chain[k - 1]
    modifies fp`sclust, fp`chain, fs`wflag, fs`winsect, fs`freeClst, fs`lastClst, fs`fsiFlag, fs.win, fs.disk
    ensures fs.Valid() && (old(fs.disk.failed) ==> fs.disk.failed)
    ensures clst == FAT_ERROR ==> fs.disk.failed
    ensures clst != FAT_ERROR ==> fp.Ready(fs)
    ensures clst <= 1 ==> fp.View() == old(fp.View()) && fs.Logical() == old(fs.Logical())
    ensures clst == 0 ==> k == |fp.chain| && (old(CountOk(fs)) ==> NoFree(fs.Fat()))
    ensures clst == 1 ==> HasOne(fs.Fat())
    ensures clst > 1 && clst != FAT_ERROR ==>
      && fp.View() == old(fp.View()).(sclust := fp.sclust, chain := fp.chain)
      && fp.chain == (if k < |old(fp.chain)| then old(fp.chain) else old(fp.chain) + [clst]) && clst == fp.chain[k]
      && Frame(fs.vol, old(fs.Logical()), fs.Logical(), old(fp.chain), fp.chain)
    ensures clst != FAT_ERROR && old(CountOk(fs)) ==> CountOk(fs)
    ensures WindowNearFat(fs.vol, old(fs.winsect), fs.winsect)
    ensures clst != FAT_ERROR && fp.chain == old(fp.chain) ==> (fs.wflag ==> old(fs.wflag))
  {
    hide FileSectors;
    hide Table;
    hide Fatfs.Logical;
    hide Mirrored;
    hide Sound;
    hide Linked;
    hide NoneFreeBefore;
    hide Zeros;
    hide Holds;
    hide FatCodec.Modulus;
    VolumeBounds(fs.vol);
    ghost var img, ws, f, t := fs.Logical(), fs.winsect, fp.View(), fs.Fat();
    clst := CreateChain(fs, prev);
    if clst == FAT_ERROR {
      return;
    }
    ChainEntries(t, fp.sclust, fp.chain, k);
    if !TookNew(t, prev, clst) {
      CoreWindow(fs.vol, img, ws, fs.winsect, f);
      FrameSame(fs.vol, img, fp.chain);
    } else {
      CoreGrow(fs.vol, img, fs.Logical(), ws, fs.winsect, f, clst);
      fp.chain := fp.chain + [clst];
    }
    if clst > 1 && fp.sclust == 0 {
      fp.sclust := clst;
    }
  }
}
