/** The floppy controller the Z80 sees: 128-byte sectors laid over image files. */
module CpmDisk {
  import opened Bytes
  import opened Disk
  import opened Window
  import opened Alloc
  import opened FileData
  import opened FileState
  import opened File
  import opened OnDisk
  import opened OpenFiles
  import opened FileRun
  import opened DriveTable
  import FK = FileSeek
  import Handshake

  /** The contents of the files. */
  ghost function Contents(hs: seq<Handle>): (c: seq<Content>)
    ensures |c| == |hs| && forall i :: 0 <= i < |hs| ==> c[i] == hs[i].view.data
  {
    seq(|hs|, i requires 0 <= i < |hs| => hs[i].view.data)
  }

  /** The block a triple names. */
  function BlockAt(disks: seq<Dsk>, contents: seq<Content>, t: Triple): Content
    requires Addressable(disks, t)
  {
    var f, p := disks[t.drive].fp.value, BlockPosition(disks, t);
    if f < |contents| && 0 <= p && p + CPM_SECTOR_SIZE <= |contents[f]| then contents[f][p..p + CPM_SECTOR_SIZE] else []
  }

  /** The contents after the block of a triple has been replaced. */
  function Stored(disks: seq<Dsk>, contents: seq<Content>, t: Triple, w: seq<Byte>): seq<Content>
    requires Addressable(disks, t)
  {
    var f, p := disks[t.drive].fp.value, BlockPosition(disks, t);
    if f < |contents| && 0 <= p && p + |w| <= |contents[f]| then contents[f := Overwrite(contents[f], p, w)]
      else contents
  }

  /** A block as a caller reads it back. */
  ghost predicate Shows(block: Content, bytes: seq<Byte>)
  {
    |block| == |bytes| == CPM_SECTOR_SIZE && forall k :: 0 <= k < |bytes| ==> Agrees(block[k], bytes[k])
  }

  /** The images have the sizes they were mounted with. */
  ghost predicate Whole(hs: seq<Handle>, sizes: seq<nat>)
  {
    |sizes| <= |hs| && forall i :: 0 <= i < |sizes| ==> |hs[i].view.data| == sizes[i]
  }

  /** Every file with changes f_sync has not stored is marked for FlushWriteCache. */
  ghost predicate Marked(hs: seq<Handle>, disks: seq<Dsk>)
  {
    forall i :: 0 <= i < |hs| && hs[i].modified ==>
      exists d :: 0 <= d < |disks| && disks[d].flush && disks[d].fp == Some(i)
  }

  /** What a read (0) or write (1) of an addressable sector does, `w` being the block in memory afterwards. */
  ghost predicate Served(cmd: nat, disks: seq<Dsk>, before: seq<Handle>, after: seq<Handle>, t: Triple, w: seq<Byte>)
    requires Addressable(disks, t)
  {
    if cmd == 0 then Contents(after) == Contents(before) && Shows(BlockAt(disks, Contents(after), t), w)
    else Contents(after) == Stored(disks, Contents(before), t, w)
  }

  lemma SameContents(a: seq<Handle>, f: nat, h: Handle)
    requires f < |a| && h.view.data == a[f].view.data
    ensures Contents(a[f := h]) == Contents(a)
  {
  }

  lemma WholeAt(hs: seq<Handle>, sizes: seq<nat>, i: nat)
    requires Whole(hs, sizes) && i < |sizes|
    ensures i < |hs| && |hs[i].view.data| == sizes[i]
  {
  }

  /** Serving a request at the right place in the right file. */
  lemma ServedByTransfer(cmd: nat, disks: seq<Dsk>, sizes: seq<nat>, owner: nat, a: seq<Handle>, h: Handle, t: Triple,
      w: seq<Byte>)
    requires Laid(disks, sizes) && Addressable(disks, t) && Whole(a, sizes) && cmd <= 1 && |w| == CPM_SECTOR_SIZE
    requires owner < |disks| && disks[owner].fp == disks[t.drive].fp && disks[t.drive].fp.value < |a|
    requires var f, p := disks[t.drive].fp.value, BlockPosition(disks, t);
             && 0 <= p && p + CPM_SECTOR_SIZE <= |a[f].view.data|
             && h.view.data == (if cmd == 0 then a[f].view.data else Overwrite(a[f].view.data, p, w))
             && (cmd == 0 ==> Shows(h.view.data[p..p + CPM_SECTOR_SIZE], w) && (h.modified ==> a[f].modified))
    ensures var b := a[disks[t.drive].fp.value := h];
            && Served(cmd, disks, a, b, t, w)
            && Whole(b, sizes)
            && (Marked(a, disks) ==>
                 Marked(b, if cmd == 0 then disks else disks[owner := disks[owner].(flush := true)]))
  {
    hide Shows;
    hide Overwrite;
    var f, p := disks[t.drive].fp.value, BlockPosition(disks, t);
    var b, after := a[f := h], if cmd == 0 then disks else disks[owner := disks[owner].(flush := true)];
    if Marked(a, disks) {
      forall i | 0 <= i < |b| && b[i].modified
        ensures exists d :: 0 <= d < |after| && after[d].flush && after[d].fp == Some(i)
      {
        if cmd == 1 && i == f {
          assert after[owner].flush && after[owner].fp == Some(i);
        } else {
          var d :| 0 <= d < |disks| && disks[d].flush && disks[d].fp == Some(i);
          assert after[d].flush && after[d].fp == Some(i);
        }
      }
    }
    assert Contents(b) == Contents(a)[f := h.view.data];
    assert Contents(a)[f := a[f].view.data] == Contents(a);
  }

  /** Where the block of a sector lies in its image, and what is there after it has been read to `w` or written from
      it. */
  ghost predicate Moved(cmd: nat, disks: seq<Dsk>, after: seq<Handle>, u: Triple, w: seq<Byte>)
  {
    && u.drive < |disks| && disks[u.drive].fp.Some? && disks[u.drive].fp.value < |after|
    && var d, bytes := disks[u.drive], after[disks[u.drive].fp.value].view.data;
       var p := 128 * (u.track * d.sectors + u.sector - 1) + if d.multi then 8388608 * u.drive else 0;
       && 0 <= p && p + 128 <= |bytes| && |w| == 128
       && forall k :: 0 <= k < 128 ==>
         if cmd == 1 then bytes[p + k] == Some(w[k]) else bytes[p + k].Some? ==> w[k] == bytes[p + k].value
  }

  lemma ServedPlaces(cmd: nat, disks: seq<Dsk>, sizes: seq<nat>, a: seq<Handle>, b: seq<Handle>, u: Triple,
      w: seq<Byte>)
    requires Laid(disks, sizes) && Whole(a, sizes) && Whole(b, sizes) && Addressable(disks, u)
    requires cmd <= 1 && |w| == 128 && Served(cmd, disks, a, b, u, w)
    ensures Moved(cmd, disks, b, u, w)
  {
    hide Laid;
    PositionInFile(disks, sizes, u);
    DriveImage(disks, sizes, u.drive);
    var f, p := disks[u.drive].fp.value, BlockPosition(disks, u);
    assert Contents(b)[f] == b[f].view.data;
    if cmd == 0 {
      forall k | 0 <= k < 128 && b[f].view.data[p + k].Some?
        ensures w[k] == b[f].view.data[p + k].value
      {
        assert Agrees(BlockAt(disks, Contents(b), u)[k], w[k]);
      }
    }
  }

  /** Tables that differ in the flush flags only. */
  ghost predicate SameLayout(a: seq<Dsk>, b: seq<Dsk>)
  {
    |a| == |b| && forall d :: 0 <= d < |a| ==> b[d] == a[d].(flush := b[d].flush)
  }

  lemma LayoutSame(a: seq<Dsk>)
    ensures SameLayout(a, a)
  {
  }

  lemma LayoutFlag(a: seq<Dsk>, d: nat)
    requires d < |a|
    ensures SameLayout(a, a[d := a[d].(flush := true)])
  {
  }

  /** Marking a drive for flushing moves no block. */
  lemma FlagMovesNothing(disks: seq<Dsk>, d: nat, before: seq<Handle>, after: seq<Handle>, t: Triple, u: Triple,
      cmd: nat, w: seq<Byte>,
                         images: nat)
    requires d < |disks| && Means(disks, images, t, u)
    ensures var marked := disks[d := disks[d].(flush := true)];
            Means(marked, images, t, u)
              && (Served(cmd, disks, before, after, u, w) ==> Served(cmd, marked, before, after, u, w))
  {
  }

  class Fdc {
    const fs: Fatfs
    /** FpArray without its unused entries: the mounted images, then the boot image if it is open and has not had to
        make room for a seventh image. */
    const files: seq<Fil>
    /** Where the entry BOOT_FILE_INDEX is among them. */
    const boot: nat
    /** Z80 memory, and what lies behind it. */
    const mem: array<Byte>
    var disks: seq<Dsk>
    var status: nat
    /** The sizes the images had when they were mounted. */
    ghost const sizes: seq<nat>

    constructor (fs: Fatfs, files: seq<Fil>, boot: nat, mem: array<Byte>, disks: seq<Dsk>, ghost sizes: seq<nat>)
      ensures this.fs == fs && this.files == files && this.boot == boot && this.mem == mem
      ensures this.disks == disks && this.sizes == sizes && status == 0
    {
      this.fs, this.files, this.boot, this.mem := fs, files, boot, mem;
      this.disks, this.sizes, this.status := disks, sizes, 0;
    }

    /** The table in order; images open for reading and writing, the boot image for reading. */
    ghost predicate Wired()
      reads this`disks
    {
      && |disks| == MAX_LOGICAL_DRIVES && Laid(disks, sizes)
      && boot == (if |sizes| > MAX_MOUNTED_DRIVES then BOOT_FILE_INDEX else |sizes|) && BootTaken(disks, |sizes|)
      && |sizes| <= |files| <= boot + 1 && (disks[0].multi ==> boot < |files|)
      && (forall i :: 0 <= i < |files| ==> files[i].canRead && files[i].canWrite == (i < |sizes|))
      && mem.Length >= 0x1_0000 + CPM_SECTOR_SIZE
      && mem != fs.win && (forall i :: 0 <= i < |files| ==> mem != files[i].buf)
    }

    /** Files and table in order; not settled after a failed f_sync. */
    ghost predicate ReadyIf(settled: bool)
      reads this`disks, fs, fs.win, fs.disk, files, set i | 0 <= i < |files| :: files[i].buf
    {
      Held(fs, files, settled) && Wired()
    }

    ghost predicate Ready()
      reads this`disks, fs, fs.win, fs.disk, files, set i | 0 <= i < |files| :: files[i].buf
    {
      ReadyIf(true)
    }

    /** CopyToZ80. */
    method CopyToZ80(at: nat, bytes: seq<Byte>)
      requires at + |bytes| <= mem.Length
      modifies mem
      ensures mem[at..at + |bytes|] == bytes
      ensures forall i :: 0 <= i < mem.Length && !(at <= i < at + |bytes|) ==> mem[i] == old(mem[i])
    {
      for i := 0 to |bytes|
        invariant forall j :: 0 <= j < mem.Length ==> mem[j] == if at <= j < at + i then bytes[j - at] else old(mem[j])
      {
        mem[at + i] := bytes[i];
      }
    }

    /** f_lseek on one of the files. */
    method SeekTo(f: nat, pos: nat) returns (ok: bool)
      requires Ready() && f < |files| && pos < TWO32
      modifies files[f], files[f].buf, fs`wflag, fs`winsect, fs`freeClst, fs`lastClst, fs`fsiFlag, fs.win, fs.disk
      ensures fs.Valid() && (old(fs.disk.failed) ==> fs.disk.failed)
      ensures !ok ==> fs.disk.failed || HasOne(old(fs.Fat()))
      ensures ok ==> Ready() && (HasOne(fs.Fat()) ==> HasOne(old(fs.Fat())))
      ensures ok ==> Handles(fs, files) == old(Handles(fs, files))[f := HandleOf(files[f])]
      ensures ok && pos <= |old(files[f].data)| ==>
        files[f].fptr == pos && files[f].data == old(files[f].data) && (files[f].modified ==> old(files[f].modified))
      ensures ok && !files[f].canWrite ==> files[f].data == old(files[f].data)
    {
      hide Fatfs.Fat;
      hide Fatfs.Logical;
      hide Held;
      hide HasOne;
      var res, out := Apply(fs, files, f, Op.Seek(pos));
      ok := res == FR_OK;
    }

    /** The read command at the file's position: 0, or 5 on failure. */
    method GetBlock(f: nat, dma: nat) returns (st: nat)
      requires Ready() && f < |files| && dma < 0x1_0000
      modifies mem, files[f], files[f].buf, fs`wflag, fs`winsect, fs`freeClst, fs`lastClst, fs`fsiFlag, fs.win, fs.disk
      ensures fs.Valid() && (old(fs.disk.failed) ==> fs.disk.failed) && (st == 0 || st == 5)
      ensures (st == 0 || (!fs.disk.failed && !HasOne(old(fs.Fat())))) ==>
        Ready() && (HasOne(fs.Fat()) ==> HasOne(old(fs.Fat())))
          && Handles(fs, files) == old(Handles(fs, files))[f := HandleOf(files[f])]
        && files[f].data == old(files[f].data) && (files[f].modified ==> old(files[f].modified))
      ensures (!fs.disk.failed && !HasOne(old(fs.Fat()))
        && old(files[f].fptr) + CPM_SECTOR_SIZE <= |old(files[f].data)|) ==> st == 0
      ensures st == 0 && old(files[f].fptr) + CPM_SECTOR_SIZE <= |old(files[f].data)| ==>
        Shows(old(files[f].data)[old(files[f].fptr)..old(files[f].fptr) + CPM_SECTOR_SIZE],
            mem[dma..dma + CPM_SECTOR_SIZE])
      ensures forall i :: 0 <= i < mem.Length && !(st == 0 && dma <= i < dma + CPM_SECTOR_SIZE) ==>
        mem[i] == old(mem[i])
    {
      hide Shows;
      hide Fatfs.Fat;
      hide Fatfs.Logical;
      hide Held;
      hide HasOne;
      hide Laid;
      hide Fdc.Wired;
      MemApart();
      FileSize(fs, files, f);
      var out;
      st, out := ReadBlock(fs, files, f);
      if st == 0 {
        CopyToZ80(dma, out);
      }
    }

    /** The write command at the file's position: 0, or 6 on failure. */
    method PutBlock(f: nat, dma: nat) returns (st: nat)
      requires Ready() && f < |files| && dma < 0x1_0000
      modifies files[f], files[f].buf, fs`wflag, fs`winsect, fs`freeClst, fs`lastClst, fs`fsiFlag, fs.win, fs.disk
      ensures fs.Valid() && (old(fs.disk.failed) ==> fs.disk.failed) && (st == 0 || st == 6)
      ensures (st == 0 || (!fs.disk.failed && !HasOne(old(fs.Fat())))) ==>
        && Ready() && (HasOne(fs.Fat()) ==> HasOne(old(fs.Fat())))
        && Handles(fs, files) == old(Handles(fs, files))[f := HandleOf(files[f])]
      ensures !fs.disk.failed && !HasOne(old(fs.Fat())) && !files[f].canWrite ==>
        st == 6 && files[f].data == old(files[f].data) && files[f].modified == old(files[f].modified)
      ensures old(files[f].fptr) <= |old(files[f].data)|
      ensures (!fs.disk.failed && !HasOne(old(fs.Fat())) && files[f].canWrite
        && old(files[f].fptr) + CPM_SECTOR_SIZE <= |old(files[f].data)|) ==> st == 0
      ensures st == 0 && old(files[f].fptr) + CPM_SECTOR_SIZE <= |old(files[f].data)| ==>
        && files[f].canWrite
        && files[f].data == Overwrite(old(files[f].data), old(files[f].fptr), mem[dma..dma + CPM_SECTOR_SIZE])
    {
      hide Fatfs.Fat;
      hide Fatfs.Logical;
      hide Held;
      hide HasOne;
      hide Laid;
      hide Overwrite;
      FileSize(fs, files, f);
      st := WriteBlock(fs, files, f, mem[dma..dma + CPM_SECTOR_SIZE]);
    }

    /** The part of fdco_out below the checks: seek to `pos` in file `f` and transfer a block. */
    method Transfer(cmd: nat, f: nat, pos: nat, dma: nat) returns (st: nat)
      requires Ready() && cmd <= 1 && f < |files| && pos < TWO32 && dma < 0x1_0000
      modifies mem, files[f], files[f].buf
      modifies fs`wflag, fs`winsect, fs`freeClst, fs`lastClst, fs`fsiFlag, fs.win, fs.disk
      ensures fs.Valid() && (old(fs.disk.failed) ==> fs.disk.failed)
      ensures (st == 0 || (!fs.disk.failed && !HasOne(old(fs.Fat())))) ==>
        && Ready() && (HasOne(fs.Fat()) ==> HasOne(old(fs.Fat())))
        && Handles(fs, files) == old(Handles(fs, files))[f := HandleOf(files[f])]
      ensures !fs.disk.failed && !HasOne(old(fs.Fat())) && pos + CPM_SECTOR_SIZE <= |old(files[f].data)| ==>
        st == if cmd == 1 && !files[f].canWrite then 6 else 0
      ensures ((st == 0 || (!fs.disk.failed && !HasOne(old(fs.Fat()))))
        && pos + CPM_SECTOR_SIZE <= |old(files[f].data)|) ==>
        if cmd == 0 then
          && files[f].data == old(files[f].data) && (files[f].modified ==> old(files[f].modified))
          && Shows(files[f].data[pos..pos + CPM_SECTOR_SIZE], mem[dma..dma + CPM_SECTOR_SIZE])
        else if !files[f].canWrite
          then files[f].data == old(files[f].data) && (files[f].modified ==> old(files[f].modified))
        else files[f].data == Overwrite(old(files[f].data), pos, mem[dma..dma + CPM_SECTOR_SIZE])
      ensures forall i :: 0 <= i < mem.Length && !(cmd == 0 && dma <= i < dma + CPM_SECTOR_SIZE) ==>
        mem[i] == old(mem[i])
      ensures !fs.disk.failed && !HasOne(old(fs.Fat())) && cmd == 1 && !files[f].canWrite ==>
        st == 6 && files[f].data == old(files[f].data)
    {
      hide Fatfs.Fat;
      hide Fatfs.Logical;
      hide Held;
      hide HasOne;
      hide Laid;
      hide Overwrite;
      hide Shows;
      var ok := SeekTo(f, pos);
      if !ok {
        return 4;
      }
      if cmd == 0 {
        st := GetBlock(f, dma);
      } else {
        st := PutBlock(f, dma);
      }
    }

    /** The checks of fdco_out, in order; 0 when a request passes. */
    function Verdict(cmd: nat, drive: nat, track: nat, sector: nat): nat
      requires |disks| == MAX_LOGICAL_DRIVES
      reads this`disks
    {
      if cmd > 1 then 7
      else if drive >= 16 || disks[drive].fp == None then 1
      else if track > disks[drive].tracks then 2
      else if sector > disks[drive].sectors then 3
      else 0
    }

    /** The file, the position in it, and the drive to mark for flushing: the system track of a Multicomp drive A is in
        the boot image's entry, and its other drives follow each other in one file. */
    method Locate(drive: nat, track: nat, sector: nat, ghost u: Triple) returns (f: nat, pos: nat, owner: nat)
      requires Ready() && drive < MAX_LOGICAL_DRIVES == |disks| && disks[drive].fp.Some?
      ensures f < |files| && pos < TWO32 && owner < |disks| && disks[owner].fp.Some?
        && (f < |sizes| ==> disks[owner].fp == Some(f))
      ensures Redirected(disks, |sizes|, Triple(drive, track, sector)) ==> f == boot >= |sizes|
      ensures drive == track == 0 && 1 <= sector < 0x1_0000 ==> pos == CPM_SECTOR_SIZE * (sector - 1)
      ensures var t := Triple(drive, track, sector);
              Means(disks, |sizes|, t, u) ==>
                f == disks[u.drive].fp.value < |sizes| && pos == BlockPosition(disks, u)
                  && pos + CPM_SECTOR_SIZE <= sizes[f]
                && disks[owner].fp == disks[u.drive].fp
    {
      hide Held;
      hide Laid;
      hide Means;
      hide BlockPosition;
      var d := disks[drive];
      DriveImage(disks, sizes, drive);
      if Means(disks, |sizes|, Triple(drive, track, sector), u) {
        SeekPosition(disks, sizes, Triple(drive, track, sector), u);
        MeansPlace(Triple(drive, track, sector), u);
      }
      f, owner := d.fp.value, drive;
      pos := CPM_SECTOR_SIZE * (track * d.sectors + sector - 1) % TWO32;
      if d.multi {
        if drive == 0 && track == 0 {
          f := boot;
        } else if drive > 0 {
          pos := (pos + MULTICOMP_DRIVE_SIZE * drive) % TWO32;
        }
        owner := 0;
      }
    }

    lemma ReadyFacts(f: nat)
      requires Ready()
      requires f < |files| || exists d :: 0 <= d < |disks| && disks[d].fp == Some(f)
      ensures f < |files| && fs.Shape() && Separate(fs, files) && |disks| == MAX_LOGICAL_DRIVES && Laid(disks, sizes)
      ensures mem.Length >= 0x1_0000 + CPM_SECTOR_SIZE && |sizes| <= |files| && files[f].canWrite == (f < |sizes|)
    {
      hide Held;
      FileSize(fs, files, f);
    }

    /** Leave the image of drive `owner` to the next FlushWriteCache. */
    method Mark(owner: nat)
      requires owner < |disks| && disks[owner].fp.Some?
      modifies this`disks
      ensures old(Ready()) ==> Ready()
      ensures disks == old(disks)[owner := old(disks)[owner].(flush := true)]
    {
      hide Laid;
      hide Held;
      if Ready() {
        FlushLaid(disks, sizes, owner);
      }
      disks := disks[owner := disks[owner].(flush := true)];
    }

    /** The end of fdco_out: the status, and the mark after a write. */
    method Settle(mark: bool, st: nat, owner: nat)
      requires owner < |disks| && disks[owner].fp.Some?
      modifies this`status, this`disks
      ensures (old(Ready()) ==> Ready()) && status == st && SameLayout(old(disks), disks)
      ensures disks == if mark then old(disks)[owner := old(disks)[owner].(flush := true)] else old(disks)
    {
      hide Fdc.Ready;
      status := st;
      LayoutSame(disks);
      if mark {
        LayoutFlag(disks, owner);
        Mark(owner);
      }
    }

    lemma MeansPlace(t: Triple, u: Triple)
      requires Means(disks, |sizes|, t, u)
      ensures t.drive < |disks| && Addressable(disks, u) && disks[t.drive].fp == disks[u.drive].fp
      ensures !Redirected(disks, |sizes|, t)
    {
    }

    /** The request is for the system track, and the boot image has the sector. */
    ghost predicate InBoot(t: Triple)
      reads this`disks, files
    {
      && Redirected(disks, |sizes|, t) && 1 <= t.sector < 0x1_0000
      && boot < |files| && 128 * t.sector <= |files[boot].data|
    }

    /** The sector of the system track in the boot image. */
    ghost function BootBlock(t: Triple): Content
      requires InBoot(t)
      reads this`disks, files
    {
      files[boot].data[128 * (t.sector - 1)..128 * t.sector]
    }

    /** Seek and transfer; `owner` is the drive to mark after a write. */
    method Serve(cmd: nat, t: Triple, dma: nat, ghost u: Triple) returns (st: nat, owner: nat)
      requires Ready() && cmd <= 1 && t.drive < MAX_LOGICAL_DRIVES == |disks| && disks[t.drive].fp.Some?
        && dma < 0x1_0000
      modifies mem, files, set i | 0 <= i < |files| :: files[i].buf
      modifies fs`wflag, fs`winsect, fs`freeClst, fs`lastClst, fs`fsiFlag, fs.win, fs.disk
      ensures fs.Valid() && (old(fs.disk.failed) ==> fs.disk.failed) && owner < |disks| && disks[owner].fp.Some?
      ensures (st == 0 || (!fs.disk.failed && !HasOne(old(fs.Fat())))) ==>
        Ready() && (HasOne(fs.Fat()) ==> HasOne(old(fs.Fat())))
      ensures (!fs.disk.failed && !HasOne(old(fs.Fat()))
        && old(Means(disks, |sizes|, t, u) && Whole(Handles(fs, files), sizes))) ==> st == 0
      ensures st == 0 && old(Means(disks, |sizes|, t, u) && Whole(Handles(fs, files), sizes)) ==>
        && Means(disks, |sizes|, t, u) && Whole(Handles(fs, files), sizes)
        && Served(cmd, disks, old(Handles(fs, files)), Handles(fs, files), u, mem[dma..dma + CPM_SECTOR_SIZE])
        && (old(Marked(Handles(fs, files), disks)) ==>
              Marked(Handles(fs, files), if cmd == 0 then disks else disks[owner := disks[owner].(flush := true)]))
      ensures forall i :: 0 <= i < mem.Length && !(cmd == 0 && dma <= i < dma + CPM_SECTOR_SIZE) ==>
        mem[i] == old(mem[i])
      ensures !fs.disk.failed && !HasOne(old(fs.Fat())) && cmd == 1 && old(Redirected(disks, |sizes|, t)) ==>
        st == 6 && Contents(Handles(fs, files)) == Contents(old(Handles(fs, files)))
      ensures !fs.disk.failed && !HasOne(old(fs.Fat())) && cmd == 0 && old(InBoot(t)) ==>
        && st == 0 && Contents(Handles(fs, files)) == Contents(old(Handles(fs, files)))
        && Shows(old(BootBlock(t)), mem[dma..dma + CPM_SECTOR_SIZE])
    {
      hide Held;
      hide HasOne;
      hide Laid;
      hide Served;
      hide Marked;
      hide Whole;
      hide Overwrite;
      hide Shows;
      hide BlockPosition;
      hide Addressable;
      hide Means;
      hide Fdc.Ready;
      hide Fatfs.Logical;
      hide Fatfs.Fat;
      var f, pos;
      f, pos, owner := Locate(t.drive, t.track, t.sector, u);
      ReadyFacts(f);
      ghost var before, one := Handles(fs, files), HasOne(fs.Fat());
      st := Transfer(cmd, f, pos, dma);
      if (st == 0 || (!fs.disk.failed && !one)) && Means(disks, |sizes|, t, u) && Whole(before, sizes) {
        MeansPlace(t, u);
        WholeAt(before, sizes, f);
        ServedByTransfer(cmd, disks, sizes, owner, before, HandleOf(files[f]), u, mem[dma..dma + CPM_SECTOR_SIZE]);
      }
      if files[f].data == before[f].view.data {
        SameContents(before, f, HandleOf(files[f]));
      }
    }

    /** fdco_out on a request that passes the checks. */
    method Execute(cmd: nat, t: Triple, dma: nat, ghost u: Triple)
      requires Ready() && cmd <= 1 && t.drive < MAX_LOGICAL_DRIVES == |disks| && disks[t.drive].fp.Some?
        && dma < 0x1_0000
      modifies this`status, this`disks, mem, files, set i | 0 <= i < |files| :: files[i].buf
      modifies fs`wflag, fs`winsect, fs`freeClst, fs`lastClst, fs`fsiFlag, fs.win, fs.disk
      ensures fs.Valid() && (old(fs.disk.failed) ==> fs.disk.failed)
      ensures (status == 0 || (!fs.disk.failed && !HasOne(old(fs.Fat())))) ==>
        Ready() && (HasOne(fs.Fat()) ==> HasOne(old(fs.Fat())))
      ensures (!fs.disk.failed && !HasOne(old(fs.Fat()))
        && old(Means(disks, |sizes|, t, u) && Whole(Handles(fs, files), sizes))) ==> status == 0
      ensures status == 0 && old(Means(disks, |sizes|, t, u) && Whole(Handles(fs, files), sizes)) ==>
        && Means(disks, |sizes|, t, u) && Whole(Handles(fs, files), sizes)
        && Served(cmd, disks, old(Handles(fs, files)), Handles(fs, files), u, mem[dma..dma + CPM_SECTOR_SIZE])
        && (old(Marked(Handles(fs, files), disks)) ==> Marked(Handles(fs, files), disks))
      ensures SameLayout(old(disks), disks)
      ensures forall i :: 0 <= i < mem.Length && !(cmd == 0 && dma <= i < dma + CPM_SECTOR_SIZE) ==>
        mem[i] == old(mem[i])
      ensures !fs.disk.failed && !HasOne(old(fs.Fat())) && cmd == 1 && old(Redirected(disks, |sizes|, t)) ==>
        status == 6 && Contents(Handles(fs, files)) == Contents(old(Handles(fs, files)))
      ensures !fs.disk.failed && !HasOne(old(fs.Fat())) && cmd == 0 && old(InBoot(t)) ==>
        && status == 0 && Contents(Handles(fs, files)) == Contents(old(Handles(fs, files)))
        && Shows(old(BootBlock(t)), mem[dma..dma + CPM_SECTOR_SIZE])
    {
      hide Held;
      hide HasOne;
      hide Laid;
      hide Served;
      hide Marked;
      hide Whole;
      hide Overwrite;
      hide Shows;
      hide BlockPosition;
      hide Addressable;
      hide Means;
      hide Fdc.Ready;
      hide Fatfs.Logical;
      hide Fatfs.Fat;
      hide SameLayout;
      ReadyFacts(disks[t.drive].fp.value);
      ghost var before, table := Handles(fs, files), disks;
      var st, owner := Serve(cmd, t, dma, u);
      Settle(cmd == 1 && st == 0, st, owner);
      if Means(table, |sizes|, t, u) {
        FlagMovesNothing(table, owner, before, Handles(fs, files), t, u, cmd, mem[dma..dma + CPM_SECTOR_SIZE], |sizes|);
      }
    }

    /** The FDC command: 0 reads, 1 writes the sector the registers name, to or from memory at `dma`. It is
        served at the sector `u` the registers mean. */
    method FdcoOut(cmd: nat, t: Triple, dma: nat, ghost u: Triple)
      requires Ready() && |disks| == MAX_LOGICAL_DRIVES && dma < 0x1_0000
      modifies this`status, this`disks, mem, files, set i | 0 <= i < |files| :: files[i].buf
      modifies fs`wflag, fs`winsect, fs`freeClst, fs`lastClst, fs`fsiFlag, fs.win, fs.disk
      ensures fs.Valid() && (old(fs.disk.failed) ==> fs.disk.failed)
      ensures old(Verdict(cmd, t.drive, t.track, t.sector)) != 0 ==>
        && status == old(Verdict(cmd, t.drive, t.track, t.sector)) && disks == old(disks) && Ready()
        && unchanged(fs, fs.win, fs.disk, mem, files, set i | 0 <= i < |files| :: files[i].buf)
      ensures (status == 0 || (!fs.disk.failed && !HasOne(old(fs.Fat())))) ==>
        Ready() && (HasOne(fs.Fat()) ==> HasOne(old(fs.Fat())))
      ensures (!fs.disk.failed && !HasOne(old(fs.Fat())) && cmd <= 1
        && old(Means(disks, |sizes|, t, u) && Whole(Handles(fs, files), sizes))) ==> status == 0
      ensures status == 0 && old(Means(disks, |sizes|, t, u) && Whole(Handles(fs, files), sizes)) ==>
        && cmd <= 1 && Means(disks, |sizes|, t, u) && Whole(Handles(fs, files), sizes)
        && Served(cmd, disks, old(Handles(fs, files)), Handles(fs, files), u, mem[dma..dma + CPM_SECTOR_SIZE])
        && Moved(cmd, disks, Handles(fs, files), u, mem[dma..dma + 128])
        && (old(Marked(Handles(fs, files), disks)) ==> Marked(Handles(fs, files), disks))
      ensures SameLayout(old(disks), disks)
      ensures forall i :: 0 <= i < mem.Length && !(cmd == 0 && dma <= i < dma + 128) ==>
        mem[i] == old(mem[i])
      ensures (!fs.disk.failed && !HasOne(old(fs.Fat())) && cmd == 1
        && old(Verdict(cmd, t.drive, t.track, t.sector) == 0 && Redirected(disks, |sizes|, t))) ==>
        status == 6 && Contents(Handles(fs, files)) == Contents(old(Handles(fs, files)))
      ensures (!fs.disk.failed && !HasOne(old(fs.Fat())) && cmd == 0
        && old(Verdict(cmd, t.drive, t.track, t.sector) == 0 && InBoot(t))) ==>
        && status == 0 && Contents(Handles(fs, files)) == Contents(old(Handles(fs, files)))
        && Shows(old(BootBlock(t)), mem[dma..dma + CPM_SECTOR_SIZE])
    {
      hide Held;
      hide HasOne;
      hide Laid;
      hide Served;
      hide Marked;
      hide Whole;
      hide BlockPosition;
      hide Moved;
      hide Fdc.Ready;
      hide Fatfs.Logical;
      hide Fatfs.Fat;
      if cmd > 1 { status := 7; ReadyValid(); return; }
      if t.drive >= MAX_LOGICAL_DRIVES || disks[t.drive].fp == None { status := 1; ReadyValid(); return; }
      if t.track > disks[t.drive].tracks { status := 2; ReadyValid(); return; }
      if t.sector > disks[t.drive].sectors { status := 3; ReadyValid(); return; }
      ReadyTable();
      ghost var before := Handles(fs, files);
      ghost var means := Means(disks, |sizes|, t, u) && Whole(before, sizes);
      Execute(cmd, t, dma, u);
      if status == 0 && means {
        MeansPlace(t, u);
        ReadyTable();
        ServedPlaces(cmd, disks, sizes, before, Handles(fs, files), u, mem[dma..dma + CPM_SECTOR_SIZE]);
      }
    }

    /** fdco_out with the registers it has read: sector number and DMA address are put together from their bytes. */
    method Command(cmd: Byte, r: Handshake.DiskRegs, ghost u: Triple)
      requires Ready() && |disks| == MAX_LOGICAL_DRIVES
      modifies this`status, this`disks, mem, files, set i | 0 <= i < |files| :: files[i].buf
      modifies fs`wflag, fs`winsect, fs`freeClst, fs`lastClst, fs`fsiFlag, fs.win, fs.disk
      ensures fs.Valid() && (old(fs.disk.failed) ==> fs.disk.failed) && SameLayout(old(disks), disks)
      ensures cmd > 1 ==> status == 7 && disks == old(disks) && unchanged(fs, fs.win, fs.disk, mem, files)
      ensures var t := Triple(r.drive, r.track, r.sectorLsb + 0x100 * r.sectorMsb as int);
              var dma := r.dmaLsb + 0x100 * r.dmaMsb as int;
              && ((!fs.disk.failed && !HasOne(old(fs.Fat())) && cmd <= 1
                    && old(Means(disks, |sizes|, t, u) && Whole(Handles(fs, files), sizes))) ==> status == 0)
              && (status == 0 && old(Means(disks, |sizes|, t, u) && Whole(Handles(fs, files), sizes)) ==>
                    && Served(cmd, disks, old(Handles(fs, files)), Handles(fs, files), u, mem[dma..dma + 128])
                    && Moved(cmd, disks, Handles(fs, files), u, mem[dma..dma + 128]))
    {
      hide Held;
      hide HasOne;
      hide Laid;
      hide Served;
      hide Moved;
      hide Marked;
      hide Whole;
      hide BlockPosition;
      hide SameLayout;
      hide Fdc.Ready;
      hide Fatfs.Logical;
      hide Fatfs.Fat;
      ReadyTable();
      FdcoOut(cmd, Triple(r.drive, r.track, r.sectorMsb * 0x100 + r.sectorLsb), r.dmaMsb * 0x100 + r.dmaLsb, u);
    }

    lemma ReadyValid()
      requires Ready()
      ensures fs.Valid()
    {
    }

    lemma MemApart()
      requires Ready()
      ensures mem.Length >= 0x1_0000 + CPM_SECTOR_SIZE && forall i :: 0 <= i < |files| ==> files[i].canRead
      ensures mem != fs.win && forall i :: 0 <= i < |files| ==> mem != files[i].buf
    {
      hide Held;
      hide Laid;
    }

    /** One request of a run: the Z80 puts a block into memory and has it written, or has one read and takes it out. */
    method Request(q: Req) returns (w: seq<Byte>)
      requires Ready() && |disks| == MAX_LOGICAL_DRIVES && q.dma < 0x1_0000 && mem.Length >= 0x1_0000 + CPM_SECTOR_SIZE
      requires fs.Shape() && Separate(fs, files) && (q.Put? ==> |q.block| == CPM_SECTOR_SIZE)
      modifies this`status, this`disks, mem, files, set i | 0 <= i < |files| :: files[i].buf
      modifies fs`wflag, fs`winsect, fs`freeClst, fs`lastClst, fs`fsiFlag, fs.win, fs.disk
      ensures fs.Valid() && (old(fs.disk.failed) ==> fs.disk.failed) && SameLayout(old(disks), disks)
      ensures (status == 0 || (!fs.disk.failed && !HasOne(old(fs.Fat())))) ==>
        Ready() && (HasOne(fs.Fat()) ==> HasOne(old(fs.Fat())))
      ensures (!fs.disk.failed && !HasOne(old(fs.Fat()))
        && old(Addressable(disks, q.t) && !Redirected(disks, |sizes|, q.t) && Whole(Handles(fs, files), sizes))) ==>
        status == 0
      ensures (status == 0
        && old(Addressable(disks, q.t) && !Redirected(disks, |sizes|, q.t) && Whole(Handles(fs, files), sizes))) ==>
        && Addressable(disks, q.t) && Whole(Handles(fs, files), sizes)
        && Served(if q.Put? then 1 else 0, disks, old(Handles(fs, files)), Handles(fs, files), q.t, w)
        && (old(Marked(Handles(fs, files), disks)) ==> Marked(Handles(fs, files), disks))
      ensures |w| == CPM_SECTOR_SIZE && (q.Put? ==> w == q.block)
    {
      hide Held;
      hide HasOne;
      hide Laid;
      hide Served;
      hide Marked;
      hide Whole;
      hide BlockPosition;
      hide Addressable;
      hide Recalls;
      hide Fdc.Ready;
      hide Fatfs.Logical;
      hide Fatfs.Fat;
      hide Redirected;
      hide SameLayout;
      hide Means;
      ReadyTable();
      ghost var table := disks;
      if Addressable(disks, q.t) && !Redirected(disks, |sizes|, q.t) {
        MeansItself(disks, sizes, q.t);
      }
      match q {
        case Put(t, dma, block) =>
          MemApart();
          CopyToZ80(dma, block);
          ghost var before := mem[..];
          FdcoOut(1, t, dma, t);
          w := mem[dma..dma + CPM_SECTOR_SIZE];
          assert w == before[dma..dma + CPM_SECTOR_SIZE] == block;
        case Get(t, dma) =>
          FdcoOut(0, t, dma, t);
          w := mem[dma..dma + CPM_SECTOR_SIZE];
      }
      LayoutAddresses(table, disks, q.t);
    }

    /** Request `k` of a run that began with the table `table` and the contents `start`. */
    method Step(script: seq<Req>, k: nat, ghost table: seq<Dsk>, ghost start: seq<Content>) returns (w: seq<Byte>)
      requires Ready() && fs.Shape() && Separate(fs, files) && Whole(Handles(fs, files), sizes)
        && SameLayout(table, disks)
      requires k < |script| && Proper(script[k], table, |sizes|) && Laid(table, sizes)
        && Recalls(table, start, Handles(fs, files), script, k)
      modifies this`status, this`disks, mem, files, set i | 0 <= i < |files| :: files[i].buf
      modifies fs`wflag, fs`winsect, fs`freeClst, fs`lastClst, fs`fsiFlag, fs.win, fs.disk
      ensures fs.Valid() && (status != 0 ==> fs.disk.failed || HasOne(old(fs.Fat())))
      ensures status == 0 ==>
        && Ready() && Whole(Handles(fs, files), sizes) && SameLayout(table, disks)
           && (HasOne(fs.Fat()) ==> HasOne(old(fs.Fat())))
        && (old(Marked(Handles(fs, files), disks)) ==> Marked(Handles(fs, files), disks))
        && Recalls(table, start, Handles(fs, files), script, k + 1) && Answered(table, start, script, k, w)
    {
      hide Held;
      hide HasOne;
      hide Laid;
      hide Served;
      hide Marked;
      hide Whole;
      hide Answered;
      hide BlockPosition;
      hide Addressable;
      hide Recalls;
      hide Fdc.Ready;
      hide Fatfs.Logical;
      hide Fatfs.Fat;
      ghost var a := Handles(fs, files);
      ReadyTable();
      LayoutAddresses(table, disks, script[k].t);
      w := Request(script[k]);
      if status == 0 {
        ReadyTable();
        LayoutServed(table, disks, a, Handles(fs, files), script[k], w);
        RecallsStep(table, sizes, start, a, Handles(fs, files), script, k, w);
      }
    }

    /** Any run of requests on addressable sectors: a read returns the block last written there, whatever else was
        written, or else the block the image held at the start. */
    method Run(script: seq<Req>) returns (replies: seq<seq<Byte>>)
      requires Ready() && fs.Shape() && Separate(fs, files) && Whole(Handles(fs, files), sizes)
      requires forall k :: 0 <= k < |script| ==> Proper(script[k], disks, |sizes|)
      modifies this`status, this`disks, mem, files, set i | 0 <= i < |files| :: files[i].buf
      modifies fs`wflag, fs`winsect, fs`freeClst, fs`lastClst, fs`fsiFlag, fs.win, fs.disk
      ensures |replies| <= |script|
      ensures |replies| < |script| ==> fs.disk.failed || HasOne(old(fs.Fat()))
      ensures forall k :: 0 <= k < |replies| ==>
        Answered(old(disks), old(Contents(Handles(fs, files))), script, k, replies[k])
      ensures |replies| == |script| ==>
        && Ready() && Whole(Handles(fs, files), sizes) && SameLayout(old(disks), disks)
        && (old(Marked(Handles(fs, files), disks)) ==> Marked(Handles(fs, files), disks))
    {
      hide Held;
      hide HasOne;
      hide Laid;
      hide Marked;
      hide Whole;
      hide Answered;
      hide SameLayout;
      hide Addressable;
      hide Recalls;
      hide Redirected;
      hide Proper;
      hide Fdc.Ready;
      hide Fatfs.Logical;
      hide Fatfs.Fat;
      hide Fatfs.Valid;
      hide Fatfs.Shape;
      hide Separate;
      replies := [];
      ReadyTable();
      ghost var table, start := disks, Contents(Handles(fs, files));
      RecallsNothing(table, Handles(fs, files), script);
      LayoutSame(table);
      while |replies| < |script|
        invariant |replies| <= |script| && Ready() && fs.Shape() && Separate(fs, files)
          && Whole(Handles(fs, files), sizes)
        invariant SameLayout(table, disks) && (HasOne(fs.Fat()) ==> HasOne(old(fs.Fat())))
        invariant Recalls(table, start, Handles(fs, files), script, |replies|)
        invariant old(Marked(Handles(fs, files), disks)) ==> Marked(Handles(fs, files), disks)
        invariant forall k :: 0 <= k < |replies| ==> Answered(table, start, script, k, replies[k])
      {
        var w := Step(script, |replies|, table, start);
        if status != 0 { return; }
        ReadyTable();
        replies := replies + [w];
      }
    }

    lemma ReadyTable()
      requires Ready()
      ensures fs.Shape() && Separate(fs, files) && |disks| == MAX_LOGICAL_DRIVES && Laid(disks, sizes)
      ensures mem.Length >= 0x1_0000 + CPM_SECTOR_SIZE
    {
    }

    /** f_sync of one file. */
    method SyncFile(f: nat, ghost settled: bool) returns (ok: bool)
      requires ReadyIf(settled) && f < |files| && fs.Shape() && Separate(fs, files)
      modifies files[f], files[f].buf, fs`wflag, fs`winsect, fs`freeClst, fs`lastClst, fs`fsiFlag, fs.win, fs.disk
      ensures ReadyIf(settled && ok) && (old(fs.disk.failed) ==> fs.disk.failed)
      ensures Handles(fs, files) == old(Handles(fs, files))[f := HandleOf(files[f])]
        && files[f].data == old(files[f].data)
      ensures if ok then !files[f].modified else fs.disk.failed
    {
      hide Held;
      hide Laid;
      var res := SyncOne(fs, files, f, settled);
      ok := res == FR_OK;
    }

    /** One turn of the loop in FlushWriteCache. */
    method FlushDrive(i: nat, ghost settled: bool) returns (ok: bool)
      requires ReadyIf(settled) && fs.Shape() && Separate(fs, files) && i < |disks|
      requires settled ==> Marked(Handles(fs, files), disks)
      modifies this`disks, files, set i | 0 <= i < |files| :: files[i].buf
      modifies fs`wflag, fs`winsect, fs`freeClst, fs`lastClst, fs`fsiFlag, fs.win, fs.disk
      ensures ReadyIf(settled && ok) && fs.Shape() && Separate(fs, files)
        && (old(fs.disk.failed) || !ok ==> fs.disk.failed)
      ensures settled && ok ==> Marked(Handles(fs, files), disks)
      ensures disks == old(disks)[i := old(disks)[i].(flush := false)]
      ensures Contents(Handles(fs, files)) == Contents(old(Handles(fs, files)))
    {
      hide Held;
      hide Laid;
      hide Fdc.ReadyIf;
      hide Fatfs.Logical;
      hide Marked;
      ok := true;
      if disks[i].flush {
        ghost var a, before := Handles(fs, files), disks;
        var f := FlaggedFile(i, settled);
        Unmark(i, settled);
        ok := SyncFile(f, settled);
        ReadyFiles(settled && ok);
        SameContents(a, f, HandleOf(files[f]));
        if settled && ok {
          FlushStep(before, a, i, f, HandleOf(files[f]));
        }
      }
    }

    /** FlushWriteCache: every marked file has its f_sync, whether or not another one fails. If none does, every image
        is on the drive; in any case no content is lost, and no mark is left for a retry. */
    method FlushWriteCache() returns (ok: bool)
      requires Ready() && fs.Shape() && Separate(fs, files) && Marked(Handles(fs, files), disks)
      modifies this`disks, files, set i | 0 <= i < |files| :: files[i].buf
      modifies fs`wflag, fs`winsect, fs`freeClst, fs`lastClst, fs`fsiFlag, fs.win, fs.disk
      ensures ReadyIf(ok) && SameLayout(old(disks), disks) && forall d :: 0 <= d < |disks| ==> !disks[d].flush
      ensures Contents(Handles(fs, files)) == Contents(old(Handles(fs, files)))
      ensures if ok then forall i :: 0 <= i < |files| ==> OnDriveNow(fs, files[i]) else fs.disk.failed
    {
      hide Held;
      hide Laid;
      hide Fdc.ReadyIf;
      hide Fatfs.Logical;
      hide Marked;
      hide OnDriveNow;
      ReadyTable();
      ok := true;
      for i := 0 to MAX_LOGICAL_DRIVES
        invariant ReadyIf(ok) && fs.Shape() && Separate(fs, files) && |disks| == MAX_LOGICAL_DRIVES
          && SameLayout(old(disks), disks)
        invariant Contents(Handles(fs, files)) == Contents(old(Handles(fs, files)))
        invariant forall d :: 0 <= d < i ==> !disks[d].flush
        invariant if ok then Marked(Handles(fs, files), disks) else fs.disk.failed
      {
        var done := FlushDrive(i, ok);
        ok := ok && done;
      }
      if ok {
        AllFlushed();
      }
    }

    lemma ReadyFiles(settled: bool)
      requires ReadyIf(settled)
      ensures fs.Shape() && Separate(fs, files)
    {
    }

    method FlaggedFile(i: nat, ghost settled: bool) returns (f: nat)
      requires ReadyIf(settled) && i < |disks| && disks[i].flush
      ensures disks[i].fp == Some(f) && f < |files|
    {
      hide Held;
      f := disks[i].fp.value;
    }

    method Unmark(i: nat, ghost settled: bool)
      requires ReadyIf(settled) && i < |disks|
      modifies this`disks
      ensures ReadyIf(settled) && disks == old(disks)[i := old(disks)[i].(flush := false)]
    {
      hide Held;
      disks := disks[i := disks[i].(flush := false)];
    }

    lemma AllFlushed()
      requires Ready() && fs.Shape() && Separate(fs, files) && Marked(Handles(fs, files), disks)
      requires forall d :: 0 <= d < |disks| ==> !disks[d].flush
      ensures forall i :: 0 <= i < |files| ==> OnDriveNow(fs, files[i])
    {
      hide Held;
      var hs := Handles(fs, files);
      forall i | 0 <= i < |files|
        ensures !files[i].modified
      {
        assert hs[i].modified == files[i].modified;
      }
      forall i | 0 <= i < |files|
        ensures OnDriveNow(fs, files[i])
      {
        AllOnDrive(fs, files, i);
      }
    }
  }

  /** The raw drive alone, from the file's directory entry on, decodes to the file's content. */
  ghost predicate OnDriveNow(fs: Fatfs, fp: Fil)
    reads fs, fs.disk, fp, fp.buf
  {
    && fp.buf.Length == SS
    && Recorded(fs.vol, fs.disk.image, fp.dirSect, fp.dirOfs, fp.View())
    && Decode(fs.vol, fs.disk.image, fp.dirSect, fp.dirOfs).Some?
    && var out := Decode(fs.vol, fs.disk.image, fp.dirSect, fp.dirOfs).value;
       |out| == |fp.data| && Delivers(fp.data, 0, out)
  }

  /** Syncing the file of a marked drive and clearing the mark keeps every other modified file marked. */
  lemma FlushStep(disks: seq<Dsk>, a: seq<Handle>, i: nat, f: nat, h: Handle)
    requires Marked(a, disks) && i < |disks| && disks[i].fp == Some(f) && f < |a| && !h.modified
      && h.view.data == a[f].view.data
    ensures Marked(a[f := h], disks[i := disks[i].(flush := false)])
    ensures Contents(a[f := h]) == Contents(a)
  {
    var b, after := a[f := h], disks[i := disks[i].(flush := false)];
    forall k | 0 <= k < |b| && b[k].modified
      ensures exists d :: 0 <= d < |after| && after[d].flush && after[d].fp == Some(k)
    {
      var d :| 0 <= d < |disks| && disks[d].flush && disks[d].fp == Some(k);
      assert after[d].flush && after[d].fp == Some(k);
    }
  }

  /** A request in a run, with the DMA address set for it. */
  datatype Req = Get(t: Triple, dma: nat) | Put(t: Triple, dma: nat, block: seq<Byte>)

  /** The sector is there and its own, the DMA address is a 16-bit one, and a block to put is a whole one. */
  predicate Proper(q: Req, disks: seq<Dsk>, images: nat)
  {
    Addressable(disks, q.t) && !Redirected(disks, images, q.t) && q.dma < 0x1_0000
      && (q.Put? ==> |q.block| == CPM_SECTOR_SIZE)
  }

  /** The block last put at `t` in the first `k` requests. */
  function LastPut(script: seq<Req>, k: nat, t: Triple): Option<seq<Byte>>
    requires k <= |script|
  {
    if k == 0 then None
    else if script[k - 1].Put? && script[k - 1].t == t then Some(script[k - 1].block)
    else LastPut(script, k - 1, t)
  }

  /** A block whose bytes are all specified. */
  function Written(w: seq<Byte>): Content
  {
    seq(|w|, i requires 0 <= i < |w| => Some(w[i]))
  }

  /** After `k` requests every block is the one last put there, or the one `start` held. */
  ghost predicate Recalls(disks: seq<Dsk>, start: seq<Content>, hs: seq<Handle>, script: seq<Req>, k: nat)
    requires k <= |script|
  {
    forall t :: Addressable(disks, t) ==>
      BlockAt(disks, Contents(hs), t) ==
        match LastPut(script, k, t)
        case Some(block) => Written(block)
        case None => BlockAt(disks, start, t)
  }

  /** Request `k`, if it is a read, was answered with the block last put there, or else with the one `start` held. */
  ghost predicate Answered(disks: seq<Dsk>, start: seq<Content>, script: seq<Req>, k: nat, w: seq<Byte>)
    requires k < |script|
  {
    Addressable(disks, script[k].t) && script[k].Get? ==>
      match LastPut(script, k, script[k].t)
      case Some(block) => w == block
      case None => Shows(BlockAt(disks, start, script[k].t), w)
  }

  lemma RecallsNothing(disks: seq<Dsk>, hs: seq<Handle>, script: seq<Req>)
    ensures Recalls(disks, Contents(hs), hs, script, 0)
  {
  }

  /** Flush flags do not matter to addresses. */
  lemma LayoutAddresses(a: seq<Dsk>, b: seq<Dsk>, t: Triple)
    requires SameLayout(a, b)
    ensures Addressable(a, t) <==> Addressable(b, t)
    ensures forall n :: Redirected(a, n, t) <==> Redirected(b, n, t)
  {
  }

  lemma LayoutServed(a: seq<Dsk>, b: seq<Dsk>, before: seq<Handle>, after: seq<Handle>, q: Req, w: seq<Byte>)
    requires SameLayout(a, b) && Addressable(b, q.t) && Served(if q.Put? then 1 else 0, b, before, after, q.t, w)
    ensures Addressable(a, q.t) && Served(if q.Put? then 1 else 0, a, before, after, q.t, w)
  {
  }

  /** Replacing a block shows there and nowhere else. */
  lemma StoredBlock(disks: seq<Dsk>, sizes: seq<nat>, hs: seq<Handle>, t: Triple, w: seq<Byte>, u: Triple)
    requires Laid(disks, sizes) && Whole(hs, sizes) && Addressable(disks, t) && Addressable(disks, u)
      && |w| == CPM_SECTOR_SIZE
    ensures BlockAt(disks, Stored(disks, Contents(hs), t, w), u) == if u == t then Written(w)
      else BlockAt(disks, Contents(hs), u)
  {
    PositionInFile(disks, sizes, t);
    PositionInFile(disks, sizes, u);
    if u != t && disks[t.drive].fp == disks[u.drive].fp {
      PositionsDisjoint(disks, sizes, t, u);
    }
  }

  /** A request keeps what was put, and adds its own. */
  lemma RecallsStep(disks: seq<Dsk>, sizes: seq<nat>, start: seq<Content>, a: seq<Handle>, b: seq<Handle>,
                    script: seq<Req>, k: nat, w: seq<Byte>)
    requires Laid(disks, sizes) && Whole(a, sizes) && k < |script| && Recalls(disks, start, a, script, k)
    requires Addressable(disks, script[k].t) && |w| == CPM_SECTOR_SIZE && (script[k].Put? ==> script[k].block == w)
    requires Served(if script[k].Put? then 1 else 0, disks, a, b, script[k].t, w)
    ensures Recalls(disks, start, b, script, k + 1)
    ensures Answered(disks, start, script, k, w)
  {
    hide Laid;
    hide BlockPosition;
    hide Addressable;
    hide Shows;
    var t := script[k].t;
    if script[k].Put? {
      forall u | Addressable(disks, u)
        ensures BlockAt(disks, Contents(b), u) == if u == t then Written(w) else BlockAt(disks, Contents(a), u)
      {
        StoredBlock(disks, sizes, a, t, w, u);
      }
    } else if LastPut(script, k, t).Some? {
      ShownExactly(BlockAt(disks, Contents(b), t), w, LastPut(script, k, t).value);
    }
  }

  lemma ShownExactly(block: Content, w: seq<Byte>, put: seq<Byte>)
    requires Shows(block, w) && block == Written(put)
    ensures w == put
  {
    forall i | 0 <= i < |w|
      ensures w[i] == put[i]
    {
      assert Agrees(block[i], w[i]);
    }
  }

  /** f_read of one block, all of it or an error. */
  method ReadBlock(fs: Fatfs, files: seq<Fil>, f: nat) returns (st: nat, out: seq<Byte>)
    requires Sane(fs, files) && f < |files| && files[f].canRead
    modifies files[f], files[f].buf, fs`wflag, fs`winsect, fs`freeClst, fs`lastClst, fs`fsiFlag, fs.win, fs.disk
    ensures fs.Valid() && (old(fs.disk.failed) ==> fs.disk.failed) && (st == 0 || st == 5)
      && (st == 0 ==> |out| == CPM_SECTOR_SIZE)
    ensures (st == 0 || (!fs.disk.failed && !HasOne(old(fs.Fat())))) ==>
      Sane(fs, files) && (HasOne(fs.Fat()) ==> HasOne(old(fs.Fat())))
        && Handles(fs, files) == old(Handles(fs, files))[f := HandleOf(files[f])]
      && files[f].data == old(files[f].data) && (files[f].modified ==> old(files[f].modified))
    ensures (!fs.disk.failed && !HasOne(old(fs.Fat()))
      && old(files[f].fptr) + CPM_SECTOR_SIZE <= |old(files[f].data)|) ==> st == 0
    ensures st == 0 && old(files[f].fptr) + CPM_SECTOR_SIZE <= |old(files[f].data)| ==>
      Shows(old(files[f].data)[old(files[f].fptr)..old(files[f].fptr) + CPM_SECTOR_SIZE], out)
  {
    hide Held;
    hide HasOne;
    hide NoFree;
    hide Effect;
    hide Fatfs.Logical;
    hide Delivers;
    FileSize(fs, files, f);
    ghost var a, full := DocOf(files[f].View()), CountOk(fs);
    var res;
    res, out := Apply(fs, files, f, Op.Read(CPM_SECTOR_SIZE));
    full := full ==> NoFree(fs.Fat());
    if res in {FR_OK, FR_DENIED} {
      ReadEffect(files[f].canWrite, a, DocOf(files[f].View()), res, out, full);
    }
    st := if res != FR_OK || |out| != CPM_SECTOR_SIZE then 5 else 0;
  }

  /** f_write of one block, all of it or an error. */
  method WriteBlock(fs: Fatfs, files: seq<Fil>, f: nat, w: seq<Byte>) returns (st: nat)
    requires Sane(fs, files) && f < |files| && |w| == CPM_SECTOR_SIZE
    modifies files[f], files[f].buf, fs`wflag, fs`winsect, fs`freeClst, fs`lastClst, fs`fsiFlag, fs.win, fs.disk
    ensures fs.Valid() && (old(fs.disk.failed) ==> fs.disk.failed) && (st == 0 || st == 6)
    ensures (st == 0 || (!fs.disk.failed && !HasOne(old(fs.Fat())))) ==>
      && Sane(fs, files) && (HasOne(fs.Fat()) ==> HasOne(old(fs.Fat())))
      && Handles(fs, files) == old(Handles(fs, files))[f := HandleOf(files[f])]
    ensures !fs.disk.failed && !HasOne(old(fs.Fat())) && !files[f].canWrite ==>
      st == 6 && HandleOf(files[f]) == old(HandleOf(files[f]))
    ensures old(files[f].fptr) <= |old(files[f].data)|
    ensures (!fs.disk.failed && !HasOne(old(fs.Fat())) && files[f].canWrite
      && old(files[f].fptr) + CPM_SECTOR_SIZE <= |old(files[f].data)|) ==> st == 0
    ensures st == 0 && old(files[f].fptr) + CPM_SECTOR_SIZE <= |old(files[f].data)| ==>
      files[f].canWrite && files[f].data == Overwrite(old(files[f].data), old(files[f].fptr), w)
  {
    hide Held;
    hide HasOne;
    hide NoFree;
    hide Effect;
    hide Fatfs.Logical;
    hide Delivers;
    hide Overwrite;
    FileSize(fs, files, f);
    ghost var a, full := DocOf(files[f].View()), CountOk(fs);
    var res, out := Apply(fs, files, f, Op.Write(w));
    full := full ==> NoFree(fs.Fat());
    if res in {FR_OK, FR_DENIED} {
      WriteEffect(w, files[f].canRead, files[f].canWrite, a, DocOf(files[f].View()), res, out, full);
    }
    st := if res != FR_OK || |out| != CPM_SECTOR_SIZE then 6 else 0;
  }

  /** A read of a block that is there delivers it. */
  lemma ReadEffect(canWrite: bool, a: Doc, b: Doc, res: FResult, out: seq<Byte>, full: bool)
    requires a.pos <= |a.bytes| && a.pos < TWO32
    requires Effect(Op.Read(CPM_SECTOR_SIZE), true, canWrite, a, b, res, out, full)
    ensures res == FR_OK && b.bytes == a.bytes
    ensures a.pos + CPM_SECTOR_SIZE <= |a.bytes| ==>
      |out| == CPM_SECTOR_SIZE && Shows(a.bytes[a.pos..a.pos + CPM_SECTOR_SIZE], out)
  {
  }

  /** A write of a block over one that is there replaces it. */
  lemma WriteEffect(w: seq<Byte>, canRead: bool, canWrite: bool, a: Doc, b: Doc, res: FResult, out: seq<Byte>,
      full: bool)
    requires a.pos <= |a.bytes| < TWO32 && |w| == CPM_SECTOR_SIZE
    requires Effect(Op.Write(w), canRead, canWrite, a, b, res, out, full)
    ensures if canWrite then res == FR_OK else res == FR_DENIED && b == a
    ensures canWrite && a.pos + |w| <= |a.bytes| ==> |out| == |w| && b.bytes == Overwrite(a.bytes, a.pos, w)
  {
  }

  /** Position and size of an open file. */
  lemma FileSize(fs: Fatfs, files: seq<Fil>, f: nat)
    requires Sane(fs, files) && f < |files|
    ensures fs.Shape() && Separate(fs, files) && files[f].buf.Length == SS && files[f].fptr <= |files[f].data| < TWO32
  {
    hide Coherent;
    hide Core;
    hide Fatfs.Logical;
    var hs := Handles(fs, files);
    CoherentAt(fs.vol, fs.Logical(), fs.winsect, fs.wflag, hs, f);
    CoreCapacity(fs.vol, fs.Logical(), fs.winsect, hs[f].view);
    CoreSect(fs.vol, fs.Logical(), fs.winsect, hs[f].view);
  }

  lemma FlushLaid(disks: seq<Dsk>, sizes: seq<nat>, d: nat)
    requires Laid(disks, sizes) && d < |disks| && disks[d].fp.Some?
    ensures Laid(disks[d := disks[d].(flush := true)], sizes)
    ensures disks[d := disks[d].(flush := true)][0].multi == disks[0].multi
  {
  }
}
