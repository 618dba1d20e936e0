/** Several files open on one volume: the invariant over all of them, and what an operation on one does to the
    others. */
module OpenFiles {
  import opened Arith
  import opened Bytes
  import opened Layout
  import opened Window
  import opened FatAccess
  import opened Chains
  import opened Alloc
  import opened FileData
  import opened FileState
  import opened DirEntry
  import opened OnDisk
  import opened FileSync

  /** An open file: its view, its directory entry's place, and FA_MODIFIED. */
  datatype Handle = Handle(view: FileView, dirClust: nat, dirSect: nat, dirOfs: nat, modified: bool)

  /** One file: the invariant, its directory entry in place, and on the volume unless it has been modified. */
  ghost predicate Intact(v: Volume, img: Image, ws: nat, h: Handle)
    requires Fits(v, img)
  {
    && FileOk(v, img, ws, h.view)
    && DirAt(v, Table(v, img), h.dirClust, h.dirSect, h.dirOfs, h.view.chain)
    && (h.view.dirty ==> h.modified)
    && (!h.modified ==> Recorded(v, img, h.dirSect, h.dirOfs, h.view))
  }

  /** Two files share no cluster, neither holds the other's directory entry, and their entries are different. */
  ghost predicate Apart(g: Handle, h: Handle)
  {
    && Disjoint(g.view.chain, h.view.chain)
    && g.dirClust !in h.view.chain
    && h.dirClust !in g.view.chain
    && (g.dirSect == h.dirSect ==> g.dirOfs + SZDIRE <= h.dirOfs || h.dirOfs + SZDIRE <= g.dirOfs)
  }

  /** All open files of a volume; changes not yet on the drive belong to a modified one. */
  ghost predicate Coherent(v: Volume, img: Image, ws: nat, wflag: bool, hs: seq<Handle>)
    requires Fits(v, img)
  {
    && (forall i :: 0 <= i < |hs| ==> Intact(v, img, ws, hs[i]))
    && (forall i, j :: 0 <= i < |hs| && 0 <= j < |hs| && i != j ==> Apart(hs[i], hs[j]))
    && (wflag ==> exists i :: 0 <= i < |hs| && hs[i].modified)
  }

  /** A sector of a cluster that is not in the chain is not one of the chain's. */
  lemma ClusterApart(v: Volume, c: nat, chain: seq<nat>, s: int)
    requires Sound(v) && c !in chain && InCluster(v, c, s)
    ensures s !in FileSectors(v, chain)
  {
    hide FileSectors;
    forall j | 0 <= j < |chain| * v.csize
      ensures FileSectors(v, chain)[j] != s
    {
      SectorInCluster(v, chain, j);
      if FileSectors(v, chain)[j] == s {
        ClustersDisjoint(v, c, chain[j / v.csize], s);
      }
    }
  }

  /** The sectors of two chains without a common cluster are different. */
  lemma SectorsApart(v: Volume, a: seq<nat>, b: seq<nat>, s: int)
    requires Sound(v) && Disjoint(a, b) && s in FileSectors(v, a)
    ensures s !in FileSectors(v, b)
  {
    hide FileSectors;
    var i :| 0 <= i < |a| * v.csize && FileSectors(v, a)[i] == s;
    SectorInCluster(v, a, i);
    ClusterApart(v, a[i / v.csize], b, s);
  }

  /** The clusters an operation takes were free, so another file does not have them. */
  lemma StillDisjoint(v: Volume, a: Image, b: Image, before: seq<nat>, after: seq<nat>, start: nat, chain: seq<nat>)
    requires Fits(v, a) && Fits(v, b) && Frame(v, a, b, before, after)
    requires FileChain(Table(v, a), start, chain) && Disjoint(before, chain)
    ensures Disjoint(after, chain) && Disjoint(chain, after)
    ensures FileChain(Table(v, b), start, chain)
  {
    hide Table;
    hide FileSectors;
    var t, u := Table(v, a), Table(v, b);
    forall i | 0 <= i < |chain|
      ensures chain[i] !in before && chain[i] !in after && u[chain[i]] == t[chain[i]]
    {
      ChainEntries(t, start, chain, i + 1);
    }
  }

  /** The directory entry stays where it is, in use, and untouched. */
  lemma EntryKept(v: Volume, a: Image, b: Image, before: seq<nat>, after: seq<nat>, h: Handle)
    requires Fits(v, a) && Fits(v, b) && Frame(v, a, b, before, after)
    requires DirAt(v, Table(v, a), h.dirClust, h.dirSect, h.dirOfs, h.view.chain) && h.dirClust !in before
    requires FilesData(v, before) && FilesData(v, after)
    ensures DirAt(v, Table(v, b), h.dirClust, h.dirSect, h.dirOfs, h.view.chain) && h.dirClust !in after
    ensures |a| == |b| && h.dirSect < |a| && a[h.dirSect] == b[h.dirSect]
  {
    hide Table;
    hide FileSectors;
    FatFits(v, a);
    if h.dirClust != 0 {
      ClusterInData(v, h.dirClust, h.dirSect);
      ClusterApart(v, h.dirClust, before, h.dirSect);
      ClusterApart(v, h.dirClust, after, h.dirSect);
    }
  }

  /** A chain's sectors are in the data area. */
  ghost predicate FilesData(v: Volume, chain: seq<nat>)
    requires v.csize > 0
  {
    0 !in chain && forall s :: s in FileSectors(v, chain) ==> v.database <= s < End(v)
  }

  lemma ChainFilesData(v: Volume, img: Image, start: nat, chain: seq<nat>)
    requires Fits(v, img) && FileChain(Table(v, img), start, chain)
    ensures FilesData(v, chain)
  {
    hide Table;
    hide FileSectors;
    FileSectorsSound(v, img, start, chain);
  }

  /** An operation on one file leaves every other file intact. */
  lemma OtherIntact(v: Volume, a: Image, b: Image, ws: nat, now: nat, before: seq<nat>, after: seq<nat>, h: Handle)
    requires Fits(v, a) && Fits(v, b) && Frame(v, a, b, before, after) && WindowNearFat(v, ws, now)
    requires Intact(v, a, ws, h) && Disjoint(before, h.view.chain) && h.dirClust !in before
    requires FilesData(v, before) && FilesData(v, after)
    ensures Intact(v, b, now, h) && Disjoint(after, h.view.chain) && h.dirClust !in after
  {
    hide Table;
    hide FileSectors;
    hide LdClust;
    hide LdSize;
    hide Frame;
    hide Sound;
    hide FilesData;
    hide FileChain;
    var f := h.view;
    VolumeBounds(v);
    StillDisjoint(v, a, b, before, after, f.sclust, f.chain);
    EntryKept(v, a, b, before, after, h);
    SectorsKept(v, a, b, before, after, f);
    HoldsFrame(a, FileSectors(v, f.chain), f.data, f.sect, f.dirty, f.buf, b);
    CoreWindow(v, a, ws, now, f);
  }

  /** The other file's sectors keep their contents. */
  lemma SectorsKept(v: Volume, a: Image, b: Image, before: seq<nat>, after: seq<nat>, f: FileView)
    requires Fits(v, a) && Fits(v, b) && Frame(v, a, b, before, after)
    requires FileChain(Table(v, a), f.sclust, f.chain) && Disjoint(before, f.chain) && Disjoint(f.chain, after)
    ensures |a| == |b| && OnDrive(a, FileSectors(v, f.chain))
    ensures forall q :: 0 <= q < |FileSectors(v, f.chain)| ==>
      a[FileSectors(v, f.chain)[q]] == b[FileSectors(v, f.chain)[q]]
  {
    hide Table;
    hide FileSectors;
    var secs := FileSectors(v, f.chain);
    FileSectorsSound(v, a, f.sclust, f.chain);
    forall q | 0 <= q < |secs|
      ensures a[secs[q]] == b[secs[q]]
    {
      SectorsApart(v, f.chain, before, secs[q]);
      SectorsApart(v, f.chain, after, secs[q]);
    }
  }

  /** An operation on the file itself: it may leave FA_MODIFIED clear only if it changed neither content nor chain. */
  ghost predicate Moves(v: Volume, a: Image, b: Image, h: Handle, g: Handle)
    requires Fits(v, a) && Fits(v, b)
  {
    && Frame(v, a, b, h.view.chain, g.view.chain)
    && g.dirClust == h.dirClust && g.dirSect == h.dirSect && g.dirOfs == h.dirOfs
    && (h.modified ==> g.modified)
    && (g.view.dirty ==> g.modified)
    && (!g.modified ==> g.view.data == h.view.data && g.view.chain == h.view.chain)
  }

  lemma SelfIntact(v: Volume, a: Image, b: Image, ws: nat, now: nat, h: Handle, g: Handle)
    requires Fits(v, a) && Fits(v, b) && Intact(v, a, ws, h) && FileOk(v, b, now, g.view) && Moves(v, a, b, h, g)
    ensures Intact(v, b, now, g)
  {
    hide Table;
    hide FileSectors;
    hide Frame;
    hide Sound;
    hide FilesData;
    hide Core;
    hide Position;
    hide Recorded;
    VolumeBounds(v);
    CoreFilesData(v, a, ws, h.view);
    CoreFilesData(v, b, now, g.view);
    EntryKept(v, a, b, h.view.chain, g.view.chain, h);
    if !g.modified {
      StillRecorded(v, a, b, ws, now, h, g);
    }
  }

  /** A file neither modified nor moved in the FAT is still on the volume as it was. */
  lemma StillRecorded(v: Volume, a: Image, b: Image, ws: nat, now: nat, h: Handle, g: Handle)
    requires Fits(v, a) && Fits(v, b) && Core(v, a, ws, h.view) && Core(v, b, now, g.view) && !g.view.dirty
    requires Recorded(v, a, h.dirSect, h.dirOfs, h.view) && g.dirSect == h.dirSect && g.dirOfs == h.dirOfs
    requires g.view.data == h.view.data && g.view.chain == h.view.chain && |a| == |b| && a[h.dirSect] == b[h.dirSect]
    ensures Recorded(v, b, g.dirSect, g.dirOfs, g.view)
  {
    hide Table;
    hide FileSectors;
    hide LdClust;
    hide LdSize;
    hide Sound;
    hide Core;
    hide Kept;
    CoreStart(v, a, ws, h.view);
    CoreStart(v, b, now, g.view);
    CoreCapacity(v, a, ws, h.view);
    CoreCapacity(v, b, now, g.view);
    CleanIsRecorded(v, b, now, g.dirSect, g.dirOfs, g.view);
  }

  lemma CoreFilesData(v: Volume, img: Image, ws: nat, f: FileView)
    requires Fits(v, img) && Core(v, img, ws, f)
    ensures v.csize > 0 && FilesData(v, f.chain)
  {
    hide Table;
    hide FileSectors;
    hide Holds;
    VolumeBounds(v);
    ChainFilesData(v, img, f.sclust, f.chain);
  }

  /** An operation on one file keeps the invariant over all of them. */
  lemma OneMoved(v: Volume, a: Image, b: Image, ws: nat, now: nat, wa: bool, wb: bool, hs: seq<Handle>, i: nat,
      g: Handle)
    requires Fits(v, a) && Fits(v, b) && i < |hs| && Coherent(v, a, ws, wa, hs)
    requires FileOk(v, b, now, g.view) && Moves(v, a, b, hs[i], g) && WindowNearFat(v, ws, now)
    requires wb ==> wa || g.modified
    ensures Coherent(v, b, now, wb, hs[i := g])
  {
    hide Table;
    hide FileSectors;
    hide Frame;
    hide Sound;
    hide FilesData;
    hide Core;
    hide Position;
    hide Recorded;
    VolumeBounds(v);
    var h, ks := hs[i], hs[i := g];
    SelfIntact(v, a, b, ws, now, h, g);
    CoreFilesData(v, a, ws, h.view);
    CoreFilesData(v, b, now, g.view);
    forall j | 0 <= j < |hs| && j != i
      ensures Intact(v, b, now, hs[j]) && Apart(g, hs[j]) && Apart(hs[j], g)
    {
      assert Apart(h, hs[j]) && Apart(hs[j], h);
      OtherIntact(v, a, b, ws, now, h.view.chain, g.view.chain, hs[j]);
    }
    if wb {
      if g.modified {
        assert ks[i].modified;
      } else {
        var j :| 0 <= j < |hs| && hs[j].modified;
        assert ks[j].modified;
      }
    }
  }

  /** The synced file's entry sector and FSInfo are none of another file's sectors. */
  lemma EntryApart(v: Volume, img: Image, ws: nat, g: Handle, h: Handle, now: nat)
    requires Fits(v, img) && Intact(v, img, ws, g) && Intact(v, img, ws, h) && Apart(g, h)
    requires WindowOnEntry(v, g.dirSect, ws, now)
    ensures v.csize > 0 && now !in FileSectors(v, h.view.chain)
  {
    hide Table;
    hide FileSectors;
    hide Recorded;
    hide Holds;
    VolumeBounds(v);
    FatFits(v, img);
    FileSectorsSound(v, img, h.view.sclust, h.view.chain);
    if now == g.dirSect && g.dirClust != 0 {
      ClusterApart(v, g.dirClust, h.view.chain, now);
    }
  }

  /** The other file's entry keeps its allocation fields. */
  lemma EntryFieldsKept(v: Volume, a: Image, b: Image, ws: nat, g: Handle, h: Handle)
    requires Fits(v, a) && Intact(v, a, ws, g) && Intact(v, a, ws, h) && Apart(g, h) && Apart(h, g)
    requires g.dirSect < |a| && EntryOnly(v, a, b, g.dirSect, g.dirOfs, FileSectors(v, g.view.chain))
    ensures h.dirSect < |a| && |b| == |a|
    ensures LdClust(v.fsType, b[h.dirSect], h.dirOfs) == LdClust(v.fsType, a[h.dirSect], h.dirOfs)
    ensures LdSize(b[h.dirSect], h.dirOfs) == LdSize(a[h.dirSect], h.dirOfs)
  {
    hide Table;
    hide FileSectors;
    hide Recorded;
    hide Core;
    hide Position;
    EntryClear(v, a, ws, h, g.view.chain);
    CoreFilesData(v, a, ws, g.view);
    if h.dirSect != g.dirSect {
      EntryApart(v, a, ws, h, g, h.dirSect);
      assert a[h.dirSect] == b[h.dirSect];
    }
  }

  lemma EntryClear(v: Volume, img: Image, ws: nat, h: Handle, chain: seq<nat>)
    requires Fits(v, img) && Intact(v, img, ws, h)
    ensures h.dirSect < |img| && !IsInfo(v, h.dirSect) && h.dirOfs + SZDIRE <= SS
  {
    hide Table;
    hide FileSectors;
    hide Recorded;
    hide Core;
    hide Position;
    DirClear(v, img, h.view, ws, h.dirClust, h.dirSect, h.dirOfs);
  }

  /** The other file's sectors keep their contents. */
  lemma SectorsUnsynced(v: Volume, a: Image, b: Image, ws: nat, g: Handle, h: Handle)
    requires Fits(v, a) && Intact(v, a, ws, g) && Intact(v, a, ws, h) && Apart(g, h)
    requires g.dirSect < |a| && EntryOnly(v, a, b, g.dirSect, g.dirOfs, FileSectors(v, g.view.chain))
    ensures |a| == |b| && OnDrive(a, FileSectors(v, h.view.chain))
    ensures forall q :: 0 <= q < |FileSectors(v, h.view.chain)| ==>
      a[FileSectors(v, h.view.chain)[q]] == b[FileSectors(v, h.view.chain)[q]]
  {
    hide Table;
    hide FileSectors;
    hide Recorded;
    hide Position;
    hide Holds;
    VolumeBounds(v);
    InfoOffFat(v);
    var secs := FileSectors(v, h.view.chain);
    FileSectorsSound(v, a, h.view.sclust, h.view.chain);
    EntryApart(v, a, ws, g, h, g.dirSect);
    forall q | 0 <= q < |secs|
      ensures a[secs[q]] == b[secs[q]]
    {
      if secs[q] in FileSectors(v, g.view.chain) {
        SectorsApart(v, g.view.chain, h.view.chain, secs[q]);
      }
    }
  }

  /** f_sync of one file leaves every other file intact. */
  lemma OtherUnsynced(v: Volume, a: Image, b: Image, ws: nat, now: nat, g: Handle, h: Handle)
    requires Fits(v, a) && Intact(v, a, ws, g) && Intact(v, a, ws, h) && Apart(g, h) && Apart(h, g)
    requires g.dirSect < |a| && EntryOnly(v, a, b, g.dirSect, g.dirOfs, FileSectors(v, g.view.chain))
    requires Fits(v, b) && Table(v, b) == Table(v, a) && WindowOnEntry(v, g.dirSect, ws, now)
    ensures Intact(v, b, now, h)
  {
    hide Table;
    hide FileSectors;
    hide LdClust;
    hide LdSize;
    hide EntryOnly;
    hide FileChain;
    hide Sound;
    VolumeBounds(v);
    EntryApart(v, a, ws, g, h, now);
    EntryFieldsKept(v, a, b, ws, g, h);
    SectorsUnsynced(v, a, b, ws, g, h);
    var f := h.view;
    HoldsFrame(a, FileSectors(v, f.chain), f.data, f.sect, f.dirty, f.buf, b);
  }

  /** f_sync of one file, successful or not, keeps the invariant over all of them. */
  lemma OneSynced(v: Volume, a: Image, b: Image, ws: nat, now: nat, wa: bool, hs: seq<Handle>, i: nat, g: Handle)
    requires Fits(v, a) && i < |hs| && Coherent(v, a, ws, wa, hs) && hs[i].dirSect < |a|
    requires EntryOnly(v, a, b, hs[i].dirSect, hs[i].dirOfs, FileSectors(v, hs[i].view.chain))
    requires Fits(v, b) && Table(v, b) == Table(v, a) && WindowOnEntry(v, hs[i].dirSect, ws, now)
    requires g == hs[i].(view := hs[i].view.(dirty := g.view.dirty), modified := g.modified)
      && FileOk(v, b, now, g.view)
    requires (g.view.dirty ==> g.modified) && (!g.modified ==> Recorded(v, b, g.dirSect, g.dirOfs, g.view))
    ensures Coherent(v, b, now, false, hs[i := g])
  {
    hide Table;
    hide FileSectors;
    hide EntryOnly;
    hide Sound;
    hide Recorded;
    hide FileOk;
    var h := hs[i];
    forall j | 0 <= j < |hs| && j != i
      ensures Intact(v, b, now, hs[j])
    {
      OtherUnsynced(v, a, b, ws, now, h, hs[j]);
    }
  }
}
