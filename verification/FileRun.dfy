/** Any run of f_lseek, f_read, f_write, f_truncate and f_sync on the open files of a volume, and of f_getfree: each
    file is a byte sequence with a position. */
module FileRun {
  import opened Bytes
  import opened Layout
  import opened Disk
  import opened Window
  import opened FatAccess
  import opened Chains
  import opened Alloc
  import opened FileData
  import opened FileState
  import opened File
  import opened DirEntry
  import opened OnDisk
  import opened FileSync
  import opened OpenFiles
  import FC = FreeCount
  import FW = FileWrite
  import FR = FileRead
  import FK = FileSeek
  import FT = FileTruncate
  import FO = FileOpen

  ghost function HandleOf(fp: Fil): Handle
    requires fp.buf.Length == SS
    reads fp, fp.buf
  {
    Handle(fp.View(), fp.dirClust, fp.dirSect, fp.dirOfs, fp.modified)
  }

  /** Distinct file objects with buffers of their own. */
  ghost predicate Separate(fs: Fatfs, files: seq<Fil>)
  {
    && (forall i :: 0 <= i < |files| ==> files[i].Shape(fs))
    && (forall i, j :: 0 <= i < |files| && 0 <= j < |files| && i != j ==>
         files[i] != files[j] && files[i].buf != files[j].buf)
  }

  ghost function Handles(fs: Fatfs, files: seq<Fil>): (hs: seq<Handle>)
    requires Separate(fs, files)
    reads files, set i | 0 <= i < |files| :: files[i].buf
    ensures |hs| == |files|
    ensures forall i :: 0 <= i < |files| ==> hs[i] == HandleOf(files[i])
  {
    seq(|files|, i requires 0 <= i < |files| reads files,
        set i | 0 <= i < |files| :: files[i].buf => HandleOf(files[i]))
  }

  /** The state between operations. It is settled unless an f_sync has failed, which can leave a directory entry in a
      dirty window after FA_MODIFIED has been cleared. */
  ghost predicate Held(fs: Fatfs, files: seq<Fil>, settled: bool)
    reads fs, fs.win, fs.disk, files, set i | 0 <= i < |files| :: files[i].buf
  {
    && fs.Valid() && Separate(fs, files)
    && (forall i :: 0 <= i < |files| ==> files[i].err == FR_OK)
    && Coherent(fs.vol, fs.Logical(), fs.winsect, fs.wflag && settled, Handles(fs, files))
  }

  ghost predicate Sane(fs: Fatfs, files: seq<Fil>)
    reads fs, fs.win, fs.disk, files, set i | 0 <= i < |files| :: files[i].buf
  {
    Held(fs, files, true)
  }

  datatype Op = Seek(ofs: nat) | Read(count: nat) | Write(bytes: seq<Byte>) | Truncate | Sync

  /** Offsets and lengths are 32-bit. */
  predicate InRange(op: Op)
  {
    match op
    case Seek(ofs) => ofs < TWO32
    case Read(n) => n < TWO32
    case Write(w) => |w| < TWO32
    case Truncate => true
    case Sync => true
  }

  /** What a file is to its user. */
  datatype Doc = Doc(bytes: Content, pos: nat)

  function DocOf(f: FileView): Doc
  {
    Doc(f.data, f.fptr)
  }

  function Min(a: int, b: int): int
  {
    if a < b then a else b
  }

  /** The simple form, with `out` the bytes transferred: what an operation does to a byte sequence with a position. It
      comes up short only on a `full` volume, at the end of the file. */
  ghost predicate Effect(op: Op, canRead: bool, canWrite: bool, a: Doc, b: Doc, res: FResult, out: seq<Byte>,
      full: bool)
    requires a.pos <= |a.bytes| && a.pos < TWO32
  {
    match op
    case Seek(ofs) =>
      var target := if canWrite then ofs else Min(ofs, |a.bytes|);
      && res == FR_OK && out == []
      && b.pos <= target && (b.pos < target ==> full && |a.bytes| <= b.pos)
      && b.bytes == FK.Extend(a.bytes, b.pos)
    case Read(n) =>
      if !canRead then res == FR_DENIED && b == a && out == [] else (
        && res == FR_OK
        && |out| == Min(n, |a.bytes| - a.pos) && Delivers(a.bytes, a.pos, out)
        && b == Doc(a.bytes, a.pos + |out|))
    case Write(w) =>
      if !canWrite then res == FR_DENIED && b == a && out == [] else (
        var asked, n := Min(|w|, TWO32 - 1 - a.pos), b.pos - a.pos;
        && res == FR_OK
        && 0 <= n <= asked && out == w[..n] && (n < asked ==> full && b.pos == |b.bytes|)
        && b.bytes == Overwrite(a.bytes, a.pos, w[..n]))
    case Truncate =>
      if !canWrite then res == FR_DENIED && b == a && out == []
      else res == FR_OK && b == Doc(a.bytes[..a.pos], a.pos) && out == []
    case Sync =>
      res == FR_OK && b == a && out == []
  }

  /** What every operation but f_sync leaves: the file's invariant, all else alone, and no new bad entry in the FAT. */
  ghost predicate Stepped(v: Volume, a: Image, b: Image, ws: nat, now: nat, wa: bool, wb: bool, h: Handle, g: Handle)
    requires Fits(v, a) && Fits(v, b)
  {
    && FileOk(v, b, now, g.view)
    && Moves(v, a, b, h, g)
    && WindowNearFat(v, ws, now)
    && (wb ==> wa || g.modified)
    && (HasOne(Table(v, b)) ==> HasOne(Table(v, a)))
  }

  lemma SteppedNowhere(v: Volume, a: Image, ws: nat, w: bool, h: Handle)
    requires Fits(v, a) && FileOk(v, a, ws, h.view) && (h.view.dirty ==> h.modified)
    ensures Stepped(v, a, a, ws, ws, w, w, h, h)
  {
    hide FileOk;
    hide Table;
    FrameSame(v, a, h.view.chain);
  }

  lemma WriteStepped(v: Volume, a: Image, b: Image, ws: nat, now: nat, wa: bool, wb: bool, h: Handle, g: Handle,
      w: seq<Byte>)
    requires Wrote(v, a, b, h.view, g.view, w) && FileOk(v, b, now, g.view) && WindowNearFat(v, ws, now)
    requires g == h.(view := g.view, modified := true)
    ensures Stepped(v, a, b, ws, now, wa, wb, h, g)
  {
    hide Core;
    hide Position;
    hide Table;
    hide Frame;
    hide HasOne;
    WroteNoNewOne(v, a, b, now, h.view, g.view, w);
  }

  lemma ReadStepped(v: Volume, a: Image, b: Image, ws: nat, now: nat, wa: bool, wb: bool, h: Handle, g: Handle,
      out: seq<Byte>)
    requires FR.DidRead(v, a, b, h.view, g.view, out) && FileOk(v, b, now, g.view) && WindowNearFat(v, ws, now)
    requires g == h.(view := g.view) && (wb ==> wa) && (h.view.dirty ==> h.modified)
    ensures Stepped(v, a, b, ws, now, wa, wb, h, g)
  {
    hide FileOk;
    hide Table;
    hide Frame;
    hide HasOne;
    hide Delivers;
  }

  lemma SeekStepped(v: Volume, a: Image, b: Image, ws: nat, now: nat, wa: bool, wb: bool, h: Handle, g: Handle)
    requires FK.Sought(v, a, b, h.view, g.view) && FileOk(v, b, now, g.view) && WindowNearFat(v, ws, now)
    requires g == h.(view := g.view, modified := h.modified || g.view.fptr > |h.view.data|)
    requires wb ==> wa || g.modified
    requires h.view.dirty ==> h.modified
    ensures Stepped(v, a, b, ws, now, wa, wb, h, g)
  {
    hide Core;
    hide Position;
    hide Table;
    hide Frame;
    hide HasOne;
    FK.CoreNoNewOne(v, a, b, now, h.view.chain, g.view);
  }

  lemma CutStepped(v: Volume, a: Image, b: Image, ws: nat, now: nat, wa: bool, wb: bool, h: Handle, g: Handle)
    requires FT.Truncated(v, a, b, h.view, g.view) && FileOk(v, b, now, g.view) && WindowNearFat(v, ws, now)
    requires g == h.(view := g.view, modified := h.modified || h.view.fptr < |h.view.data|)
    requires wb ==> wa || g.modified
    requires h.view.dirty ==> h.modified
    ensures Stepped(v, a, b, ws, now, wa, wb, h, g)
  {
    hide Position;
    hide Table;
    hide Frame;
    hide HasOne;
    hide Holds;
    hide FileSectors;
    NoNewOne(v, a, b, h.view.chain, g.view.sclust, g.view.chain);
  }

  /** The bytes of a sequence in a caller's buffer. */
  method Buffer(w: seq<Byte>) returns (buff: array<Byte>)
    ensures fresh(buff) && buff[..] == w
  {
    buff := new Byte[|w|](i requires 0 <= i < |w| => w[i]);
  }

  method DoWrite(fs: Fatfs, fp: Fil, w: seq<Byte>) returns (res: FResult, out: seq<Byte>)
    requires fp.Valid(fs) && fp.err == FR_OK && |w| < TWO32 && (fp.dirty ==> fp.modified)
    modifies fp, fp.buf, fs`wflag, fs`winsect, fs`freeClst, fs`lastClst, fs`fsiFlag, fs.win, fs.disk
    ensures fs.Valid() && (old(fs.disk.failed) ==> fs.disk.failed)
    ensures res in {FR_OK, FR_DENIED} || (res == FR_DISK_ERR && fs.disk.failed)
      || (res == FR_INT_ERR && HasOne(old(fs.Fat())))
    ensures res in {FR_OK, FR_DENIED} ==> fp.err == FR_OK && (old(CountOk(fs)) ==> CountOk(fs))
    ensures res in {FR_OK, FR_DENIED} ==>
      Stepped(fs.vol, old(fs.Logical()), fs.Logical(), old(fs.winsect), fs.winsect, old(fs.wflag), fs.wflag,
          old(HandleOf(fp)), HandleOf(fp))
    ensures old(fp.fptr) <= |old(fp.data)| && old(fp.fptr) < TWO32
    ensures res in {FR_OK, FR_DENIED} ==>
      Effect(Write(w), fp.canRead, fp.canWrite, DocOf(old(fp.View())), DocOf(fp.View()), res, out,
             old(CountOk(fs)) ==> NoFree(fs.Fat()))
    ensures res == FR_DENIED ==> HandleOf(fp) == old(HandleOf(fp))
  {
    hide Fatfs.Logical;
    hide Mirrored;
    hide Sound;
    hide Core;
    hide Position;
    hide Table;
    hide NoFree;
    hide HasOne;
    hide Zeros;
    hide Frame;
    hide Moves;
    hide Overwrite;
    ghost var img, ws, h, dirty := fs.Logical(), fs.winsect, HandleOf(fp), fs.wflag;
    CoreCapacity(fs.vol, img, ws, h.view);
    CoreSect(fs.vol, img, ws, h.view);
    SteppedNowhere(fs.vol, img, ws, dirty, h);
    FW.ClippedBound(fp.fptr, |w|);
    var buff := Buffer(w);
    var bw;
    res, bw := FW.FWrite(fs, fp, buff, |w|);
    out := [];
    if res == FR_OK {
      out := w[..bw];
      assert buff[..bw] == w[..bw];
      CoreCapacity(fs.vol, fs.Logical(), fs.winsect, fp.View());
      WriteStepped(fs.vol, img, fs.Logical(), ws, fs.winsect, dirty, fs.wflag, h, HandleOf(fp), w[..bw]);
    }
  }

  method DoRead(fs: Fatfs, fp: Fil, n: nat) returns (res: FResult, out: seq<Byte>)
    requires fp.Valid(fs) && fp.err == FR_OK && (fp.dirty ==> fp.modified)
    modifies fp, fp.buf, fs`wflag, fs`winsect, fs`freeClst, fs`lastClst, fs`fsiFlag, fs.win, fs.disk
    ensures fs.Valid() && (old(fs.disk.failed) ==> fs.disk.failed)
    ensures res in {FR_OK, FR_DENIED} || (res == FR_DISK_ERR && fs.disk.failed)
      || (res == FR_INT_ERR && HasOne(old(fs.Fat())))
    ensures res in {FR_OK, FR_DENIED} ==> fp.err == FR_OK && (old(CountOk(fs)) ==> CountOk(fs))
    ensures res in {FR_OK, FR_DENIED} ==>
      Stepped(fs.vol, old(fs.Logical()), fs.Logical(), old(fs.winsect), fs.winsect, old(fs.wflag), fs.wflag,
          old(HandleOf(fp)), HandleOf(fp))
    ensures old(fp.fptr) <= |old(fp.data)| && old(fp.fptr) < TWO32
    ensures res in {FR_OK, FR_DENIED} ==>
      Effect(Read(n), fp.canRead, fp.canWrite, DocOf(old(fp.View())), DocOf(fp.View()), res, out,
             old(CountOk(fs)) ==> NoFree(fs.Fat()))
    ensures res in {FR_OK, FR_DENIED} && fp.modified ==> old(fp.modified) || |fp.data| > |old(fp.data)|
    ensures res == FR_DENIED ==> HandleOf(fp) == old(HandleOf(fp))
  {
    hide Fatfs.Logical;
    hide Mirrored;
    hide Sound;
    hide Core;
    hide Position;
    hide Table;
    hide NoFree;
    hide HasOne;
    hide Zeros;
    hide Frame;
    hide Moves;
    hide Delivers;
    ghost var img, ws, h, dirty := fs.Logical(), fs.winsect, HandleOf(fp), fs.wflag;
    CoreCapacity(fs.vol, img, ws, h.view);
    CoreSect(fs.vol, img, ws, h.view);
    SteppedNowhere(fs.vol, img, ws, dirty, h);
    var buff := new Byte[n];
    var br;
    res, br := FR.FRead(fs, fp, buff, n);
    out := [];
    if res == FR_OK {
      out := buff[..br];
      ReadStepped(fs.vol, img, fs.Logical(), ws, fs.winsect, dirty, fs.wflag, h, HandleOf(fp), out);
    }
  }

  method DoSeek(fs: Fatfs, fp: Fil, ofs: nat) returns (res: FResult)
    requires fp.Valid(fs) && fp.err == FR_OK && ofs < TWO32 && (fp.dirty ==> fp.modified)
    modifies fp, fp.buf, fs`wflag, fs`winsect, fs`freeClst, fs`lastClst, fs`fsiFlag, fs.win, fs.disk
    ensures fs.Valid() && (old(fs.disk.failed) ==> fs.disk.failed)
    ensures res in {FR_OK, FR_DENIED} || (res == FR_DISK_ERR && fs.disk.failed)
      || (res == FR_INT_ERR && HasOne(old(fs.Fat())))
    ensures res in {FR_OK, FR_DENIED} ==> fp.err == FR_OK && (old(CountOk(fs)) ==> CountOk(fs))
    ensures res in {FR_OK, FR_DENIED} ==>
      Stepped(fs.vol, old(fs.Logical()), fs.Logical(), old(fs.winsect), fs.winsect, old(fs.wflag), fs.wflag,
          old(HandleOf(fp)), HandleOf(fp))
    ensures old(fp.fptr) <= |old(fp.data)| && old(fp.fptr) < TWO32
    ensures res in {FR_OK, FR_DENIED} ==>
      Effect(Seek(ofs), fp.canRead, fp.canWrite, DocOf(old(fp.View())), DocOf(fp.View()), res, [],
             old(CountOk(fs)) ==> NoFree(fs.Fat()))
    ensures res in {FR_OK, FR_DENIED} && fp.modified ==> old(fp.modified) || |fp.data| > |old(fp.data)|
    ensures res == FR_DENIED ==> HandleOf(fp) == old(HandleOf(fp))
  {
    hide Fatfs.Logical;
    hide Mirrored;
    hide Sound;
    hide Core;
    hide Position;
    hide Table;
    hide NoFree;
    hide HasOne;
    hide Zeros;
    hide Frame;
    hide Moves;
    ghost var img, ws, h, dirty := fs.Logical(), fs.winsect, HandleOf(fp), fs.wflag;
    CoreCapacity(fs.vol, img, ws, h.view);
    CoreSect(fs.vol, img, ws, h.view);
    SteppedNowhere(fs.vol, img, ws, dirty, h);
    res := FK.FLseek(fs, fp, ofs);
    if res == FR_OK {
      CoreCapacity(fs.vol, fs.Logical(), fs.winsect, fp.View());
      SeekStepped(fs.vol, img, fs.Logical(), ws, fs.winsect, dirty, fs.wflag, h, HandleOf(fp));
    }
  }

  method DoTruncate(fs: Fatfs, fp: Fil) returns (res: FResult)
    requires fp.Valid(fs) && fp.err == FR_OK && (fp.dirty ==> fp.modified)
    modifies fp, fp.buf, fs`wflag, fs`winsect, fs`freeClst, fs`lastClst, fs`fsiFlag, fs.win, fs.disk
    ensures fs.Valid() && (old(fs.disk.failed) ==> fs.disk.failed)
    ensures res in {FR_OK, FR_DENIED} || (res == FR_DISK_ERR && fs.disk.failed)
      || (res == FR_INT_ERR && HasOne(old(fs.Fat())))
    ensures res in {FR_OK, FR_DENIED} ==> fp.err == FR_OK && (old(CountOk(fs)) ==> CountOk(fs))
    ensures res in {FR_OK, FR_DENIED} ==>
      Stepped(fs.vol, old(fs.Logical()), fs.Logical(), old(fs.winsect), fs.winsect, old(fs.wflag), fs.wflag,
          old(HandleOf(fp)), HandleOf(fp))
    ensures old(fp.fptr) <= |old(fp.data)| && old(fp.fptr) < TWO32
    ensures res in {FR_OK, FR_DENIED} ==>
      Effect(Truncate, fp.canRead, fp.canWrite, DocOf(old(fp.View())), DocOf(fp.View()), res, [],
             old(CountOk(fs)) ==> NoFree(fs.Fat()))
    ensures res == FR_DENIED ==> HandleOf(fp) == old(HandleOf(fp))
  {
    hide Fatfs.Logical;
    hide Mirrored;
    hide Sound;
    hide Core;
    hide Position;
    hide Table;
    hide NoFree;
    hide HasOne;
    hide Zeros;
    hide Frame;
    hide Moves;
    ghost var img, ws, h, dirty := fs.Logical(), fs.winsect, HandleOf(fp), fs.wflag;
    CoreCapacity(fs.vol, img, ws, h.view);
    CoreSect(fs.vol, img, ws, h.view);
    SteppedNowhere(fs.vol, img, ws, dirty, h);
    res := FT.FTruncate(fs, fp);
    if res == FR_OK {
      CutStepped(fs.vol, img, fs.Logical(), ws, fs.winsect, dirty, fs.wflag, h, HandleOf(fp));
    }
  }

  /** f_sync of file `i` of those with handles `hs`. */
  method DoSync(fs: Fatfs, fp: Fil, ghost hs: seq<Handle>, ghost i: nat, ghost settled: bool) returns (res: FResult)
    requires fp.Valid(fs) && fp.err == FR_OK && i < |hs| && HandleOf(fp) == hs[i]
    requires Coherent(fs.vol, fs.Logical(), fs.winsect, fs.wflag && settled, hs)
    modifies fp`modified, fp`dirty, fs`wflag, fs`winsect, fs`fsiFlag, fs.win, fs.disk
    ensures fs.Valid() && (old(fs.disk.failed) ==> fs.disk.failed)
    ensures res == FR_OK || (res == FR_DISK_ERR && fs.disk.failed)
    ensures Coherent(fs.vol, fs.Logical(), fs.winsect, fs.wflag && settled && res == FR_OK, hs[i := HandleOf(fp)])
    ensures fs.Fat() == old(fs.Fat()) && DocOf(fp.View()) == old(DocOf(fp.View()))
    ensures res == FR_OK ==> !fp.modified
  {
    hide Fatfs.Logical;
    hide Mirrored;
    hide Sound;
    hide Core;
    hide Position;
    hide Table;
    hide Recorded;
    hide EntryOnly;
    hide FileSectors;
    hide Coherent;
    hide DirAt;
    VolumeBounds(fs.vol);
    ghost var img, ws, dirty, h := fs.Logical(), fs.winsect, fs.wflag && settled, hs[i];
    CoherentAt(fs.vol, img, ws, dirty, hs, i);
    res := FSync(fs, fp);
    if h.modified {
      OneSynced(fs.vol, img, fs.Logical(), ws, fs.winsect, dirty, hs, i, HandleOf(fp));
    } else {
      assert HandleOf(fp) == h && fs.Logical() == img;
      assert hs[i := h] == hs;
    }
  }

  /** Entries 0 and 1 of a FAT, which no chain goes through, stay. */
  ghost predicate SameLead(t: seq<nat>, u: seq<nat>)
  {
    |u| == |t| >= 2 && u[0] == t[0] && u[1] == t[1]
  }

  lemma LeadKept(v: Volume, a: Image, b: Image, ws: nat, now: nat, h: FileView, g: FileView)
    requires Fits(v, a) && Fits(v, b) && Core(v, a, ws, h) && Core(v, b, now, g) && Frame(v, a, b, h.chain, g.chain)
    ensures SameLead(Table(v, a), Table(v, b))
  {
    hide Table;
    hide FileSectors;
    hide Core;
    VolumeBounds(v);
    CoreStart(v, a, ws, h);
    CoreStart(v, b, now, g);
  }

  /** What one file's operation leaves of all of them. */
  lemma StepCoherent(v: Volume, a: Image, b: Image, ws: nat, now: nat, wa: bool, wb: bool, hs: seq<Handle>, i: nat,
      g: Handle)
    requires Fits(v, a) && Fits(v, b) && i < |hs| && Coherent(v, a, ws, wa, hs)
    requires Stepped(v, a, b, ws, now, wa, wb, hs[i], g)
    ensures Coherent(v, b, now, wb, hs[i := g])
    ensures (HasOne(Table(v, b)) ==> HasOne(Table(v, a))) && SameLead(Table(v, a), Table(v, b))
  {
    hide Table;
    hide Core;
    hide Position;
    hide Frame;
    hide Coherent;
    hide HasOne;
    hide SameLead;
    OneMoved(v, a, b, ws, now, wa, wb, hs, i, g);
    CoherentAt(v, a, ws, wa, hs, i);
    LeadKept(v, a, b, ws, now, hs[i].view, g.view);
  }

  /** The files as their users see them. */
  ghost function Docs(hs: seq<Handle>): (ds: seq<Doc>)
    ensures |ds| == |hs| && forall i :: 0 <= i < |hs| ==> ds[i] == DocOf(hs[i].view)
  {
    seq(|hs|, i requires 0 <= i < |hs| => DocOf(hs[i].view))
  }

  /** An operation other than f_sync. */
  method Move(fs: Fatfs, fp: Fil, op: Op) returns (res: FResult, out: seq<Byte>)
    requires fp.Valid(fs) && fp.err == FR_OK && InRange(op) && op != Sync && (fp.dirty ==> fp.modified)
    modifies fp, fp.buf, fs`wflag, fs`winsect, fs`freeClst, fs`lastClst, fs`fsiFlag, fs.win, fs.disk
    ensures fs.Valid() && (old(fs.disk.failed) ==> fs.disk.failed)
    ensures res in {FR_OK, FR_DENIED} || (res == FR_DISK_ERR && fs.disk.failed)
      || (res == FR_INT_ERR && HasOne(old(fs.Fat())))
    ensures res in {FR_OK, FR_DENIED} ==> fp.err == FR_OK && (old(CountOk(fs)) ==> CountOk(fs))
    ensures res in {FR_OK, FR_DENIED} ==>
      Stepped(fs.vol, old(fs.Logical()), fs.Logical(), old(fs.winsect), fs.winsect, old(fs.wflag), fs.wflag,
          old(HandleOf(fp)), HandleOf(fp))
    ensures old(fp.fptr) <= |old(fp.data)| && old(fp.fptr) < TWO32
    ensures res in {FR_OK, FR_DENIED} ==>
      Effect(op, fp.canRead, fp.canWrite, DocOf(old(fp.View())), DocOf(fp.View()), res, out,
             old(CountOk(fs)) ==> NoFree(fs.Fat()))
    ensures res in {FR_OK, FR_DENIED} && fp.modified && !old(fp.modified) ==>
      op.Write? || op.Truncate? || |fp.data| > |old(fp.data)|
    ensures res == FR_DENIED ==> HandleOf(fp) == old(HandleOf(fp))
  {
    hide Fatfs.Logical;
    hide Mirrored;
    hide Sound;
    hide Core;
    hide Position;
    hide Table;
    hide NoFree;
    hide HasOne;
    hide Zeros;
    hide Stepped;
    hide Effect;
    out := [];
    match op {
      case Seek(ofs) => res := DoSeek(fs, fp, ofs);
      case Read(n) => res, out := DoRead(fs, fp, n);
      case Write(w) => res, out := DoWrite(fs, fp, w);
      case Truncate => res := DoTruncate(fs, fp);
    }
  }

  /** One operation on file `i` of those with handles `hs`. */
  method Operate(fs: Fatfs, fp: Fil, op: Op, ghost hs: seq<Handle>, ghost i: nat) returns (res: FResult, out: seq<Byte>)
    requires fp.Valid(fs) && fp.err == FR_OK && i < |hs| && HandleOf(fp) == hs[i] && InRange(op)
    requires Coherent(fs.vol, fs.Logical(), fs.winsect, fs.wflag, hs)
    modifies fp, fp.buf, fs`wflag, fs`winsect, fs`freeClst, fs`lastClst, fs`fsiFlag, fs.win, fs.disk
    ensures fs.Valid() && (old(fs.disk.failed) ==> fs.disk.failed)
    ensures res in {FR_OK, FR_DENIED} || (res == FR_DISK_ERR && fs.disk.failed)
      || (res == FR_INT_ERR && HasOne(old(fs.Fat())))
    ensures res in {FR_OK, FR_DENIED} ==> fp.err == FR_OK && fp.Shape(fs)
    ensures res in {FR_OK, FR_DENIED} ==> Coherent(fs.vol, fs.Logical(), fs.winsect, fs.wflag, hs[i := HandleOf(fp)])
    ensures res in {FR_OK, FR_DENIED} ==>
      (old(CountOk(fs)) ==> CountOk(fs)) && (HasOne(fs.Fat()) ==> HasOne(old(fs.Fat())))
    ensures old(fp.fptr) <= |old(fp.data)| && old(fp.fptr) < TWO32
    ensures res in {FR_OK, FR_DENIED} ==>
      Effect(op, fp.canRead, fp.canWrite, DocOf(old(fp.View())), DocOf(fp.View()), res, out,
             old(CountOk(fs)) ==> NoFree(fs.Fat()))
    ensures res in {FR_OK, FR_DENIED} && fp.modified && !old(fp.modified) ==>
      op.Write? || op.Truncate? || |fp.data| > |old(fp.data)|
    ensures op == Sync && res == FR_OK ==> !fp.modified
    ensures res == FR_DENIED ==> HandleOf(fp) == old(HandleOf(fp))
    ensures res in {FR_OK, FR_DENIED} ==> SameLead(old(fs.Fat()), fs.Fat())
  {
    hide Fatfs.Logical;
    hide Mirrored;
    hide Sound;
    hide Core;
    hide Position;
    hide Table;
    hide NoFree;
    hide HasOne;
    hide Zeros;
    hide Stepped;
    hide Effect;
    hide Coherent;
    hide SameLead;
    ghost var img, ws, dirty, d := fs.Logical(), fs.winsect, fs.wflag, DocOf(fp.View());
    CoherentAt(fs.vol, img, ws, dirty, hs, i);
    if op == Sync {
      CoreCapacity(fs.vol, img, ws, fp.View());
      CoreSect(fs.vol, img, ws, fp.View());
      out := [];
      res := DoSync(fs, fp, hs, i, true);
      VolumeBounds(fs.vol);
      LeadSame(fs.Fat());
      SyncEffect(fp.canRead, fp.canWrite, d, old(CountOk(fs)) ==> NoFree(fs.Fat()));
    } else {
      res, out := Move(fs, fp, op);
      if res in {FR_OK, FR_DENIED} {
        StepCoherent(fs.vol, img, fs.Logical(), ws, fs.winsect, dirty, fs.wflag, hs, i, HandleOf(fp));
      }
    }
  }

  lemma LeadSame(t: seq<nat>)
    requires |t| >= 2
    ensures SameLead(t, t)
  {
  }

  lemma SyncEffect(canRead: bool, canWrite: bool, d: Doc, full: bool)
    requires d.pos <= |d.bytes| && d.pos < TWO32
    ensures Effect(Sync, canRead, canWrite, d, d, FR_OK, [], full)
  {
  }

  /** One operation on file `i` of `files`. */
  method Apply(fs: Fatfs, files: seq<Fil>, i: nat, op: Op) returns (res: FResult, out: seq<Byte>)
    requires Sane(fs, files) && i < |files| && InRange(op)
    modifies files[i], files[i].buf, fs`wflag, fs`winsect, fs`freeClst, fs`lastClst, fs`fsiFlag, fs.win, fs.disk
    ensures fs.Valid() && (old(fs.disk.failed) ==> fs.disk.failed)
    ensures res in {FR_OK, FR_DENIED} || (res == FR_DISK_ERR && fs.disk.failed)
      || (res == FR_INT_ERR && HasOne(old(fs.Fat())))
    ensures res in {FR_OK, FR_DENIED} ==> Sane(fs, files)
    ensures res in {FR_OK, FR_DENIED} ==>
      (old(CountOk(fs)) ==> CountOk(fs)) && (HasOne(fs.Fat()) ==> HasOne(old(fs.Fat())))
    ensures res in {FR_OK, FR_DENIED} ==> Handles(fs, files) == old(Handles(fs, files))[i := HandleOf(files[i])]
    ensures old(files[i].fptr) <= |old(files[i].data)| && old(files[i].fptr) < TWO32
    ensures res in {FR_OK, FR_DENIED} ==>
      Effect(op, files[i].canRead, files[i].canWrite, DocOf(old(files[i].View())), DocOf(files[i].View()), res, out,
             old(CountOk(fs)) ==> NoFree(fs.Fat()))
    ensures res in {FR_OK, FR_DENIED} && files[i].modified && !old(files[i].modified) ==>
      op.Write? || op.Truncate? || |files[i].data| > |old(files[i].data)|
    ensures op == Sync && res == FR_OK ==> !files[i].modified
    ensures res == FR_DENIED ==> HandleOf(files[i]) == old(HandleOf(files[i]))
    ensures res in {FR_OK, FR_DENIED} ==> SameLead(old(fs.Fat()), fs.Fat())
  {
    hide SameLead;
    hide Fatfs.Logical;
    hide Mirrored;
    hide Sound;
    hide Core;
    hide Position;
    hide Table;
    hide NoFree;
    hide HasOne;
    hide Zeros;
    hide Coherent;
    hide Stepped;
    hide Effect;
    ghost var hs := Handles(fs, files);
    CoherentAt(fs.vol, fs.Logical(), fs.winsect, fs.wflag, hs, i);
    res, out := Operate(fs, files[i], op, hs, i);
    if res in {FR_OK, FR_DENIED} {
      assert Handles(fs, files) == hs[i := HandleOf(files[i])];
    }
  }

  /** f_sync of file `i` of `files`, perhaps after another one failed: failing or not, it loses no content. */
  method SyncOne(fs: Fatfs, files: seq<Fil>, i: nat, ghost settled: bool) returns (res: FResult)
    requires Held(fs, files, settled) && i < |files|
    modifies files[i], files[i].buf, fs`wflag, fs`winsect, fs`freeClst, fs`lastClst, fs`fsiFlag, fs.win, fs.disk
    ensures Held(fs, files, settled && res == FR_OK) && (old(fs.disk.failed) ==> fs.disk.failed)
    ensures res == FR_OK || (res == FR_DISK_ERR && fs.disk.failed)
    ensures Handles(fs, files) == old(Handles(fs, files))[i := HandleOf(files[i])]
    ensures fs.Fat() == old(fs.Fat()) && DocOf(files[i].View()) == old(DocOf(files[i].View()))
    ensures res == FR_OK ==> !files[i].modified
  {
    hide Fatfs.Logical;
    hide Mirrored;
    hide Sound;
    hide Core;
    hide Position;
    hide Table;
    hide Coherent;
    ghost var hs := Handles(fs, files);
    CoherentAt(fs.vol, fs.Logical(), fs.winsect, fs.wflag && settled, hs, i);
    res := DoSync(fs, files[i], hs, i, settled);
    assert Handles(fs, files) == hs[i := HandleOf(files[i])];
  }

  lemma CoherentAt(v: Volume, img: Image, ws: nat, wflag: bool, hs: seq<Handle>, i: nat)
    requires Fits(v, img) && Coherent(v, img, ws, wflag, hs) && i < |hs|
    ensures FileOk(v, img, ws, hs[i].view) && (hs[i].view.dirty ==> hs[i].modified)
    ensures DirAt(v, Table(v, img), hs[i].dirClust, hs[i].dirSect, hs[i].dirOfs, hs[i].view.chain)
  {
  }

  /** One step of a run: only file `i` moved, as the simple form says. */
  ghost predicate Conforms(i: nat, op: Op, canRead: bool, canWrite: bool, a: seq<Doc>, b: seq<Doc>,
                           res: FResult, out: seq<Byte>, full: bool)
  {
    && i < |a| == |b|
    && b == a[i := b[i]]
    && a[i].pos <= |a[i].bytes| < TWO32
    && Effect(op, canRead, canWrite, a[i], b[i], res, out, full)
  }

  lemma DocsMoved(v: Volume, img: Image, ws: nat, wflag: bool, hs: seq<Handle>, i: nat, g: Handle, op: Op,
                  canRead: bool, canWrite: bool, res: FResult, out: seq<Byte>, full: bool)
    requires Fits(v, img) && Coherent(v, img, ws, wflag, hs) && i < |hs|
    requires hs[i].view.fptr <= |hs[i].view.data| && hs[i].view.fptr < TWO32
    requires Effect(op, canRead, canWrite, DocOf(hs[i].view), DocOf(g.view), res, out, full)
    ensures Conforms(i, op, canRead, canWrite, Docs(hs), Docs(hs[i := g]), res, out, full)
  {
    hide Effect;
    hide Table;
    hide Coherent;
    CoherentAt(v, img, ws, wflag, hs, i);
    CoreCapacity(v, img, ws, hs[i].view);
    CoreSect(v, img, ws, hs[i].view);
    assert Docs(hs[i := g]) == Docs(hs)[i := DocOf(g.view)];
  }

  /** FA_READ and FA_WRITE of the files. */
  function Rights(files: seq<Fil>): (r: seq<(bool, bool)>)
    ensures |r| == |files|
    ensures forall i :: 0 <= i < |files| ==> r[i] == (files[i].canRead, files[i].canWrite)
  {
    seq(|files|, i requires 0 <= i < |files| => (files[i].canRead, files[i].canWrite))
  }

  /** A call of a run: an operation on one of the open files, or f_getfree. */
  datatype Call = On(file: nat, op: Op) | GetFree

  /** What the caller saw of it. */
  datatype Reply = Did(res: FResult, out: seq<Byte>) | Counted(nclst: nat)

  /** One call, with `fat` the FAT after it: an operation moves its file alone, as the simple form says, and f_getfree
      moves nothing and tells the number of free clusters. */
  ghost predicate Answers(call: Call, rights: seq<(bool, bool)>, a: seq<Doc>, b: seq<Doc>, reply: Reply, fat: seq<nat>,
      exact: bool)
  {
    match call
    case On(i, op) =>
      && i < |rights| && reply.Did?
      && Conforms(i, op, rights[i].0, rights[i].1, a, b, reply.res, reply.out, exact ==> NoFree(fat))
    case GetFree =>
      b == a && reply.Counted? && (exact ==> |fat| >= 2 && reply.nclst == Zeros(fat, 2))
  }

  /** A run so far: every call was answered rightly. */
  ghost predicate Refines(script: seq<Call>, rights: seq<(bool, bool)>, replies: seq<Reply>, trace: seq<seq<Doc>>,
                          fats: seq<seq<nat>>, exact: bool)
  {
    && |replies| <= |script| && |trace| == |fats| == |replies| + 1
    && forall k :: 0 <= k < |replies| ==>
       Answers(script[k], rights, trace[k], trace[k + 1], replies[k], fats[k + 1], exact)
  }

  lemma RefinesStep(script: seq<Call>, rights: seq<(bool, bool)>, replies: seq<Reply>, trace: seq<seq<Doc>>,
                    fats: seq<seq<nat>>, exact: bool, reply: Reply, docs: seq<Doc>, fat: seq<nat>)
    requires Refines(script, rights, replies, trace, fats, exact) && |replies| < |script|
    requires Answers(script[|replies|], rights, trace[|replies|], docs, reply, fat, exact)
    ensures Refines(script, rights, replies + [reply], trace + [docs], fats + [fat], exact)
  {
    hide Answers;
  }

  /** Files there and offsets in range. */
  predicate Callable(call: Call, n: nat)
  {
    call.On? ==> call.file < n && InRange(call.op)
  }

  /** The cached free count is exact or unknown before the run, and if f_getfree may have to count anew, a scan of the
      FAT does not take its leading entries for free clusters. */
  ghost predicate Countable(fs: Fatfs, script: seq<Call>)
    requires fs.Shape()
    reads fs`wflag, fs`winsect, fs`freeClst, fs.win, fs.disk`image
  {
    CountOk(fs) && (GetFree in script ==> |fs.Fat()| >= 2 && FC.Led(fs.vol, fs.Fat()))
  }

  /** Any sequence of calls on any of the open files, until one fails: none does unless the drive or the FAT is bad.
      Writes come up short only on a full volume and f_getfree tells the truth if the count was `Countable`, and then
      it stays exact or unknown. */
  method Run(fs: Fatfs, files: seq<Fil>, script: seq<Call>)
      returns (replies: seq<Reply>, ghost trace: seq<seq<Doc>>, ghost fats: seq<seq<nat>>)
    requires Sane(fs, files) && forall k :: 0 <= k < |script| ==> Callable(script[k], |files|)
    modifies files, set i | 0 <= i < |files| :: files[i].buf
    modifies fs`wflag, fs`winsect, fs`freeClst, fs`lastClst, fs`fsiFlag, fs.win, fs.disk
    ensures fs.Valid() && Refines(script, Rights(files), replies, trace, fats, old(Countable(fs, script)))
    ensures trace[0] == Docs(old(Handles(fs, files)))
    ensures |replies| < |script| ==> fs.disk.failed || HasOne(old(fs.Fat()))
    ensures |replies| == |script| ==>
      Sane(fs, files) && trace[|replies|] == Docs(Handles(fs, files)) && fats[|replies|] == fs.Fat()
    ensures |replies| == |script| && old(Countable(fs, script)) ==> CountOk(fs)
  {
    hide Fatfs.Logical;
    hide Mirrored;
    hide Sound;
    hide Core;
    hide Position;
    hide Table;
    hide NoFree;
    hide HasOne;
    hide Zeros;
    hide Coherent;
    hide Effect;
    hide Conforms;
    hide Answers;
    hide Countable;
    replies, trace, fats := [], [Docs(Handles(fs, files))], [fs.Fat()];
    ghost var exact, rights := Countable(fs, script), Rights(files);
    while |replies| < |script|
      invariant Sane(fs, files) && Refines(script, rights, replies, trace, fats, exact)
      invariant exact ==> Countable(fs, script)
      invariant HasOne(fs.Fat()) ==> HasOne(old(fs.Fat()))
      invariant trace[0] == Docs(old(Handles(fs, files)))
      invariant trace[|replies|] == Docs(Handles(fs, files)) && fats[|replies|] == fs.Fat()
    {
      var ok, reply := Turn(fs, files, script, |replies|, exact);
      if !ok {
        return;
      }
      RefinesStep(script, rights, replies, trace, fats, exact, reply, Docs(Handles(fs, files)), fs.Fat());
      replies, trace, fats := replies + [reply], trace + [Docs(Handles(fs, files))], fats + [fs.Fat()];
    }
    CountableOk(fs, script);
  }

  lemma CountableOk(fs: Fatfs, script: seq<Call>)
    requires fs.Shape()
    ensures Countable(fs, script) ==> CountOk(fs)
  {
  }

  /** Call `k` of a run. */
  method Turn(fs: Fatfs, files: seq<Fil>, script: seq<Call>, k: nat, ghost exact: bool) returns (ok: bool, reply: Reply)
    requires Sane(fs, files) && k < |script| && Callable(script[k], |files|) && (exact ==> Countable(fs, script))
    modifies files, set i | 0 <= i < |files| :: files[i].buf
    modifies fs`wflag, fs`winsect, fs`freeClst, fs`lastClst, fs`fsiFlag, fs.win, fs.disk
    ensures fs.Valid()
    ensures !ok ==> fs.disk.failed || HasOne(old(fs.Fat()))
    ensures ok ==> Sane(fs, files) && (exact ==> Countable(fs, script)) && (HasOne(fs.Fat()) ==> HasOne(old(fs.Fat())))
    ensures ok ==>
      Answers(script[k], Rights(files), old(Docs(Handles(fs, files))), Docs(Handles(fs, files)), reply, fs.Fat(), exact)
  {
    hide Fatfs.Logical;
    hide Mirrored;
    hide Sound;
    hide Core;
    hide Position;
    hide Table;
    hide NoFree;
    hide HasOne;
    hide Zeros;
    hide Coherent;
    hide Effect;
    hide Conforms;
    match script[k]
    case On(i, op) =>
      var res, out := Operation(fs, files, i, op, exact);
      ok, reply := res in {FR_OK, FR_DENIED}, Did(res, out);
    case GetFree =>
      var res, nclst := Count(fs, files);
      ok, reply := res == FR_OK, Counted(nclst);
  }

  /** f_getfree with files open. */
  method Count(fs: Fatfs, files: seq<Fil>) returns (res: FResult, nclst: nat)
    requires Sane(fs, files)
    modifies fs`wflag, fs`winsect, fs`freeClst, fs`fsiFlag, fs.win, fs.disk
    ensures Sane(fs, files) && fs.Fat() == old(fs.Fat()) && Docs(Handles(fs, files)) == old(Docs(Handles(fs, files)))
    ensures res != FR_OK ==> fs.disk.failed || HasOne(old(fs.Fat()))
    ensures res == FR_OK && old(CountOk(fs)) && |fs.Fat()| >= 2 && FC.Led(fs.vol, fs.Fat()) ==>
      CountOk(fs) && nclst == Zeros(fs.Fat(), 2)
  {
    hide Fatfs.Logical;
    hide Mirrored;
    hide Sound;
    hide Core;
    hide Position;
    hide Table;
    hide Zeros;
    hide Coherent;
    ghost var hs, img, ws, dirty := Handles(fs, files), fs.Logical(), fs.winsect, fs.wflag;
    VolumeBounds(fs.vol);
    ghost var k;
    res, nclst, k := FC.GetFree(fs);
    WindowNear(fs.vol, img, ws, fs.winsect, dirty, fs.wflag, hs);
    assert Handles(fs, files) == hs;
  }

  /** An operation on file `i` in a run. */
  method Operation(fs: Fatfs, files: seq<Fil>, i: nat, op: Op, ghost exact: bool) returns (res: FResult, out: seq<Byte>)
    requires Sane(fs, files) && i < |files| && InRange(op) && (exact ==> CountOk(fs))
    modifies files[i], files[i].buf, fs`wflag, fs`winsect, fs`freeClst, fs`lastClst, fs`fsiFlag, fs.win, fs.disk
    ensures fs.Valid()
    ensures res !in {FR_OK, FR_DENIED} ==> fs.disk.failed || HasOne(old(fs.Fat()))
    ensures res in {FR_OK, FR_DENIED} ==> Sane(fs, files)
    ensures res in {FR_OK, FR_DENIED} ==> (exact ==> CountOk(fs)) && (HasOne(fs.Fat()) ==> HasOne(old(fs.Fat())))
    ensures res in {FR_OK, FR_DENIED} ==> SameLead(old(fs.Fat()), fs.Fat())
    ensures res in {FR_OK, FR_DENIED} ==>
      Conforms(i, op, files[i].canRead, files[i].canWrite, old(Docs(Handles(fs, files))), Docs(Handles(fs, files)),
          res, out,
               exact ==> NoFree(fs.Fat()))
  {
    hide Fatfs.Logical;
    hide Mirrored;
    hide Sound;
    hide Core;
    hide Position;
    hide Table;
    hide NoFree;
    hide HasOne;
    hide Zeros;
    hide Coherent;
    hide Effect;
    hide Conforms;
    hide SameLead;
    ghost var hs, img, ws, dirty, counted := Handles(fs, files), fs.Logical(), fs.winsect, fs.wflag, CountOk(fs);
    res, out := Apply(fs, files, i, op);
    ghost var full := exact ==> NoFree(fs.Fat());
    if res in {FR_OK, FR_DENIED} {
      EffectWeaker(op, files[i].canRead, files[i].canWrite, DocOf(hs[i].view), DocOf(files[i].View()), res, out,
                   counted ==> NoFree(fs.Fat()), full);
      DocsMoved(fs.vol, img, ws, dirty, hs, i, HandleOf(files[i]), op, files[i].canRead, files[i].canWrite, res, out,
          full);
    }
  }

  lemma EffectWeaker(op: Op, canRead: bool, canWrite: bool, a: Doc, b: Doc, res: FResult, out: seq<Byte>, full: bool,
      more: bool)
    requires a.pos <= |a.bytes| && a.pos < TWO32 && Effect(op, canRead, canWrite, a, b, res, out, full)
      && (full ==> more)
    ensures Effect(op, canRead, canWrite, a, b, res, out, more)
  {
  }

  /** When no open file is modified, the raw drive alone decodes to every file's content. */
  lemma AllOnDrive(fs: Fatfs, files: seq<Fil>, i: nat)
    requires Sane(fs, files) && i < |files| && forall j :: 0 <= j < |files| ==> !files[j].modified
    ensures !fs.wflag && Recorded(fs.vol, fs.disk.image, files[i].dirSect, files[i].dirOfs, files[i].View())
    ensures Decode(fs.vol, fs.disk.image, files[i].dirSect, files[i].dirOfs).Some?
    ensures var out := Decode(fs.vol, fs.disk.image, files[i].dirSect, files[i].dirOfs).value;
            |out| == files[i].objsize == |files[i].data| && Delivers(files[i].data, 0, out)
  {
    hide Fatfs.Logical;
    hide Mirrored;
    hide Sound;
    hide Core;
    hide Position;
    hide Table;
    hide Recorded;
    var hs := Handles(fs, files);
    assert Intact(fs.vol, fs.Logical(), fs.winsect, hs[i]);
    CleanLogical(fs);
    DirClear(fs.vol, fs.Logical(), hs[i].view, fs.winsect, hs[i].dirClust, hs[i].dirSect, hs[i].dirOfs);
    RecordedRaw(fs.vol, fs.disk.image, fs.winsect, fs.win[..], files[i].dirSect, files[i].dirOfs, files[i].View());
    RecordedDecodes(fs.vol, fs.disk.image, files[i].dirSect, files[i].dirOfs, files[i].View());
    CoreCapacity(fs.vol, fs.Logical(), fs.winsect, hs[i].view);
  }

  /** Before any file is open. */
  lemma NothingOpen(fs: Fatfs)
    requires fs.Valid() && !fs.wflag
    ensures Sane(fs, [])
  {
  }

  /** Reading a directory sector into the window leaves open files intact. */
  lemma WindowMoved(v: Volume, img: Image, ws: nat, now: nat, wa: bool, wb: bool, hs: seq<Handle>)
    requires Fits(v, img) && Coherent(v, img, ws, wa, hs) && (wb ==> wa)
    requires forall i :: 0 <= i < |hs| ==> v.csize > 0 && now !in FileSectors(v, hs[i].view.chain)
    ensures Coherent(v, img, now, wb, hs)
  {
    hide Table;
    hide FileSectors;
    hide Holds;
    hide Recorded;
  }

  /** The window on the sector of a file's directory entry is on none of another file's sectors. */
  lemma EntryOffOthers(v: Volume, img: Image, ws: nat, g: Handle, h: Handle)
    requires Fits(v, img) && Intact(v, img, ws, h) && Apart(g, h)
    requires DirAt(v, Table(v, img), g.dirClust, g.dirSect, g.dirOfs, g.view.chain)
    ensures v.csize > 0 && g.dirSect !in FileSectors(v, h.view.chain)
  {
    hide Table;
    hide FileSectors;
    hide Recorded;
    hide Holds;
    VolumeBounds(v);
    FileSectorsSound(v, img, h.view.sclust, h.view.chain);
    if g.dirClust != 0 {
      ClusterApart(v, g.dirClust, h.view.chain, g.dirSect);
    }
  }

  /** So does moving it about the FAT. */
  lemma WindowNear(v: Volume, img: Image, ws: nat, now: nat, wa: bool, wb: bool, hs: seq<Handle>)
    requires Fits(v, img) && Coherent(v, img, ws, wa, hs) && WindowNearFat(v, ws, now) && (wb ==> wa)
    ensures Coherent(v, img, now, wb, hs)
  {
    hide Table;
    hide FileSectors;
    hide Intact;
    VolumeBounds(v);
    FrameSame(v, img, []);
    assert FileSectors(v, []) == [];
    forall i | 0 <= i < |hs|
      ensures Intact(v, img, now, hs[i])
    {
      OtherIntact(v, img, img, ws, now, [], [], hs[i]);
    }
  }

  /** One more file, apart from those open already. */
  lemma OneMore(v: Volume, img: Image, ws: nat, w: bool, hs: seq<Handle>, g: Handle)
    requires Fits(v, img) && Coherent(v, img, ws, w, hs) && Intact(v, img, ws, g)
    requires forall i :: 0 <= i < |hs| ==> Apart(g, hs[i]) && Apart(hs[i], g)
    ensures Coherent(v, img, ws, w, hs + [g])
  {
    hide Intact;
    hide Apart;
    var more := hs + [g];
    if w {
      var i :| 0 <= i < |hs| && hs[i].modified;
      assert more[i].modified;
    }
  }

  /** Open the file recorded at `dirOfs` of sector `s`, beside those open already. */
  method Open(fs: Fatfs, files: seq<Fil>, s: nat, dirOfs: nat, canRead: bool, canWrite: bool, seekEnd: bool,
              ghost dirClust: nat, ghost chain: seq<nat>, ghost data: Content) returns (res: FResult, more: seq<Fil>)
    requires Sane(fs, files) && s < |fs.Logical()| && dirOfs + SZDIRE <= SS
    requires Recorded(fs.vol, fs.Logical(), s, dirOfs, FO.Fresh(fs.vol, fs.Logical(), s, dirOfs, chain, data))
    requires DirAt(fs.vol, fs.Fat(), dirClust, s, dirOfs, chain)
    requires var g := Handle(FO.Fresh(fs.vol, fs.Logical(), s, dirOfs, chain, data), dirClust, s, dirOfs, false);
             forall i :: 0 <= i < |files| ==> Apart(g, HandleOf(files[i])) && Apart(HandleOf(files[i]), g)
    modifies fs`wflag, fs`winsect, fs.win, fs.disk
    ensures res == FR_OK || (res == FR_DISK_ERR && fs.disk.failed)
    ensures res == FR_OK ==>
      && |more| == |files| + 1 && more[..|files|] == files && Sane(fs, more) && fs.Logical() == old(fs.Logical())
      && DocOf(more[|files|].View()) == Doc(data, if seekEnd then |data| else 0)
      && more[|files|].canRead == canRead && more[|files|].canWrite == canWrite
  {
    hide Fatfs.Logical;
    hide Mirrored;
    hide Sound;
    hide Core;
    hide Position;
    hide Table;
    hide Coherent;
    hide Recorded;
    hide Apart;
    hide DirAt;
    hide LdClust;
    hide LdSize;
    ghost var img, ws, dirty, hs := fs.Logical(), fs.winsect, fs.wflag, Handles(fs, files);
    ghost var g := Handle(FO.Fresh(fs.vol, img, s, dirOfs, chain, data), dirClust, s, dirOfs, false);
    more := files;
    res := MoveWindow(fs, s);
    if res != FR_OK {
      return;
    }
    EntryOffAll(fs.vol, img, ws, dirty, hs, g, chain);
    WindowMoved(fs.vol, img, ws, s, dirty, fs.wflag, hs);
    ghost var dirty1 := fs.wflag;
    var fp;
    res, fp := FO.OpenFile(fs, canRead, canWrite, seekEnd, dirOfs, dirClust, chain, data);
    if res != FR_OK {
      return;
    }
    WindowNear(fs.vol, img, s, fs.winsect, dirty1, fs.wflag, hs);
    more := files + [fp];
    forall i | 0 <= i < |files|
      ensures Apart(HandleOf(fp), hs[i]) && Apart(hs[i], HandleOf(fp))
    {
      ApartSame(g, HandleOf(fp), hs[i]);
    }
    OneMore(fs.vol, img, fs.winsect, fs.wflag, hs, HandleOf(fp));
    assert Handles(fs, more) == hs + [HandleOf(fp)];
  }

  lemma ApartSame(g: Handle, h: Handle, k: Handle)
    requires g.view.chain == h.view.chain && g.dirClust == h.dirClust && g.dirSect == h.dirSect && g.dirOfs == h.dirOfs
    ensures Apart(g, k) ==> Apart(h, k)
    ensures Apart(k, g) ==> Apart(k, h)
  {
  }

  lemma EntryOffAll(v: Volume, img: Image, ws: nat, w: bool, hs: seq<Handle>, g: Handle, chain: seq<nat>)
    requires Fits(v, img) && Coherent(v, img, ws, w, hs) && chain == g.view.chain
    requires DirAt(v, Table(v, img), g.dirClust, g.dirSect, g.dirOfs, chain)
    requires forall i :: 0 <= i < |hs| ==> Apart(g, hs[i])
    ensures v.csize > 0 && forall i :: 0 <= i < |hs| ==> g.dirSect !in FileSectors(v, hs[i].view.chain)
  {
    hide Intact;
    hide Apart;
    hide DirAt;
    hide Table;
    hide FileSectors;
    VolumeBounds(v);
    forall i | 0 <= i < |hs|
      ensures g.dirSect !in FileSectors(v, hs[i].view.chain)
    {
      EntryOffOthers(v, img, ws, g, hs[i]);
    }
  }
}
