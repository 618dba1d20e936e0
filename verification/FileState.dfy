/** The invariant that ties an open file to its chain, its sectors, its sector buffer and its read/write position. */
module FileState {
  import opened Arith
  import opened Bytes
  import opened FatCodec
  import opened Layout
  import opened Window
  import opened FatAccess
  import opened Chains
  import opened Alloc
  import opened FileData

  /** The FIL members that say where a file's bytes are, with its chain and content. */
  datatype FileView = FileView(
    sclust: nat, objsize: nat, dirty: bool, fptr: nat, clust: nat, sect: nat, buf: Sector,
    chain: seq<nat>, data: Content)

  /** Chain, size, sectors and buffer fit together; the FATFS window is on none of the file's sectors. */
  ghost predicate Core(v: Volume, img: Image, ws: nat, f: FileView)
    requires Fits(v, img)
  {
    && FileChain(Table(v, img), f.sclust, f.chain)
    && |f.data| == f.objsize < TWO32
    && f.fptr <= f.objsize
    && f.sect < TWO32
    && Holds(img, FileSectors(v, f.chain), f.data, f.sect, f.dirty, f.buf)
    && (f.dirty ==> f.sect in FileSectors(v, f.chain))
    && ws !in FileSectors(v, f.chain)
  }

  /** The current cluster is the one holding the byte before the position; mid-sector, the buffer is on the position's
      sector. */
  ghost predicate Position(v: Volume, f: FileView)
    requires v.csize > 0
  {
    && (f.fptr > 0 ==> (f.fptr - 1) / SS / v.csize < |f.chain| && f.clust == f.chain[(f.fptr - 1) / SS / v.csize])
    && (f.fptr % SS != 0 ==> f.fptr / SS < |f.chain| * v.csize && f.sect == FileSectors(v, f.chain)[f.fptr / SS])
  }

  ghost predicate FileOk(v: Volume, img: Image, ws: nat, f: FileView)
    requires Fits(v, img)
  {
    Core(v, img, ws, f) && Position(v, f)
  }

  /** The current cluster is the one holding the byte at the position: what a transfer needs. */
  ghost predicate At(v: Volume, f: FileView)
    requires v.csize > 0
  {
    f.fptr / SS < |f.chain| * v.csize && f.fptr / SS / v.csize < |f.chain| && f.clust == f.chain[f.fptr / SS / v.csize]
  }

  /** What an operation on one file leaves alone: all clusters but the file's own and the free ones it takes, FAT
      entries and sectors. */
  ghost predicate Frame(v: Volume, a: Image, b: Image, before: seq<nat>, after: seq<nat>)
    requires Fits(v, a) && Fits(v, b)
  {
    && |a| == |b|
    && (forall s :: 0 <= s < |a| && !InFat1(v, s) && s !in FileSectors(v, before) && s !in FileSectors(v, after) ==>
         a[s] == b[s])
    && (forall c :: 0 <= c < v.nFatent && c !in before && c !in after ==> Table(v, b)[c] == Table(v, a)[c])
    && (forall c :: c in after && c !in before ==> c < v.nFatent && Table(v, a)[c] == 0)
  }

  lemma FrameSame(v: Volume, a: Image, chain: seq<nat>)
    requires Fits(v, a)
    ensures Frame(v, a, a, chain, chain)
  {
  }

  /** Frames of growing chains compose. */
  lemma FrameTrans(v: Volume, a: Image, b: Image, c: Image, ca: seq<nat>, cb: seq<nat>, cc: seq<nat>)
    requires Fits(v, a) && Fits(v, b) && Fits(v, c) && ca <= cb <= cc
    requires Frame(v, a, b, ca, cb) && Frame(v, b, c, cb, cc)
    ensures Frame(v, a, c, ca, cc)
  {
    hide Table;
    hide FileSectors;
    SectorsPrefix(v, ca, cb);
    SectorsPrefix(v, cb, cc);
    forall s | 0 <= s < |a| && !InFat1(v, s) && s !in FileSectors(v, ca) && s !in FileSectors(v, cc)
      ensures a[s] == c[s]
    {
      assert s !in FileSectors(v, cb);
    }
  }

  /** No operation on a file puts the value 1, which is no link, into the FAT. */
  lemma NoNewOne(v: Volume, a: Image, b: Image, before: seq<nat>, start: nat, after: seq<nat>)
    requires Fits(v, a) && Fits(v, b) && Frame(v, a, b, before, after)
    requires FileChain(Table(v, b), start, after)
    requires forall c :: c in before && c !in after ==> c < v.nFatent && Table(v, b)[c] != 1
    ensures HasOne(Table(v, b)) ==> HasOne(Table(v, a))
  {
    hide Table;
    hide FileSectors;
    var t, u := Table(v, a), Table(v, b);
    if c :| 2 <= c < |u| && u[c] == 1 {
      if c in after {
        var i :| 0 <= i < |after| && after[i] == c;
        ChainEntries(u, start, after, i + 1);
      }
      assert t[c] == 1;
    }
  }

  /** What the FAT says after element k - 1 of a file's chain. */
  lemma ChainEntries(t: seq<nat>, start: nat, chain: seq<nat>, k: nat)
    requires FileChain(t, start, chain) && k <= |chain|
    ensures k > 0 ==> 2 <= chain[k - 1] < |t|
    ensures k > 0 ==> if k < |chain| then t[chain[k - 1]] == chain[k] >= 2 else t[chain[k - 1]] >= |t|
  {
  }

  /** A file's sectors are data sectors, all different. */
  lemma FileSectorsSound(v: Volume, img: Image, start: nat, chain: seq<nat>)
    requires Fits(v, img) && FileChain(Table(v, img), start, chain)
    ensures Distinct(FileSectors(v, chain)) && OnDrive(img, FileSectors(v, chain))
    ensures forall q :: 0 <= q < |chain| * v.csize ==> v.database <= FileSectors(v, chain)[q] < End(v)
    ensures forall q :: 0 <= q < |chain| * v.csize ==>
      && !InFat1(v, FileSectors(v, chain)[q]) && !InFat2(v, FileSectors(v, chain)[q])
      && FileSectors(v, chain)[q] < NO_SECTOR
  {
    hide Table;
    hide Sound;
    if chain != [] {
      forall i, j | 0 <= i < j < |chain|
        ensures chain[i] != chain[j]
      {
        ChainDistinct(Table(v, img), chain, i, j);
      }
    }
    SectorsDistinct(v, chain);
    forall q | 0 <= q < |chain| * v.csize
      ensures v.database <= FileSectors(v, chain)[q] < End(v)
      ensures !InFat1(v, FileSectors(v, chain)[q]) && !InFat2(v, FileSectors(v, chain)[q])
    {
      VolumeBounds(v);
      SectorInCluster(v, chain, q);
      ClusterInData(v, chain[q / v.csize], FileSectors(v, chain)[q]);
    }
  }

  /** The position never passes the end of the chain. */
  lemma CoreCapacity(v: Volume, img: Image, ws: nat, f: FileView)
    requires Fits(v, img) && Core(v, img, ws, f)
    ensures v.csize > 0 && f.fptr <= f.objsize == |f.data| <= SS * (|f.chain| * v.csize)
  {
  }

  /** The start cluster is the first of the chain. */
  lemma CoreStart(v: Volume, img: Image, ws: nat, f: FileView)
    requires Fits(v, img) && Core(v, img, ws, f)
    ensures f.sclust == 0 <==> f.chain == []
    ensures f.chain != [] ==> f.chain[0] == f.sclust
    ensures forall i :: 0 <= i < |f.chain| ==> 2 <= f.chain[i] < v.nFatent
  {
  }

  /** The invariant says nothing about the current cluster. */
  lemma CoreClust(v: Volume, img: Image, ws: nat, f: FileView, c: nat)
    requires Fits(v, img) && Core(v, img, ws, f)
    ensures Core(v, img, ws, f.(clust := c))
  {
  }

  lemma CoreSect(v: Volume, img: Image, ws: nat, f: FileView)
    requires Fits(v, img) && Core(v, img, ws, f)
    ensures f.sect < TWO32 && End(v) < TWO32 && f.fptr <= f.objsize < TWO32
  {
  }

  /** Moving the window about the FAT keeps the invariant. */
  lemma CoreWindow(v: Volume, img: Image, ws: nat, now: nat, f: FileView)
    requires Fits(v, img) && Core(v, img, ws, f) && WindowNearFat(v, ws, now)
    ensures Core(v, img, now, f)
  {
    FileSectorsSound(v, img, f.sclust, f.chain);
  }

  /** The file after its chain has grown by one cluster. */
  function Extended(f: FileView, c: nat): FileView
  {
    f.(chain := f.chain + [c], sclust := if f.sclust == 0 then c else f.sclust)
  }

  /** Linking a free cluster to the end of a file's chain. */
  lemma GrownChain(v: Volume, t: seq<nat>, f: FileView, c: nat)
    requires Sound(v) && |t| == v.nFatent && FileChain(t, f.sclust, f.chain)
    requires 2 <= c < v.nFatent && t[c] == 0
    ensures var u := Linked(v, t, if f.chain == [] then 0 else f.chain[|f.chain| - 1], c);
            FileChain(u, Extended(f, c).sclust, f.chain + [c])
            && forall d :: 0 <= d < |t| && d !in f.chain && d != c ==> u[d] == t[d]
  {
    if f.chain == [] {
      assert IsChain(Linked(v, t, 0, c), [c]);
    } else {
      ChainExtend(t, f.chain, c, EndMark(v));
    }
  }

  /** create_chain linking a new cluster to the end of the chain keeps the invariant and leaves other files alone. */
  lemma CoreGrow(v: Volume, a: Image, b: Image, ws: nat, now: nat, f: FileView, c: nat)
    requires Fits(v, a) && Fits(v, b) && Core(v, a, ws, f) && SameOffFat1(v, b, a) && InFat1(v, now)
    requires 2 <= c < v.nFatent && Table(v, a)[c] == 0
    requires Table(v, b) == Linked(v, Table(v, a), if f.chain == [] then 0 else f.chain[|f.chain| - 1], c)
    ensures Core(v, b, now, Extended(f, c))
    ensures Frame(v, a, b, f.chain, f.chain + [c])
  {
    hide Table;
    hide FileSectors;
    hide FileChain;
    hide Linked;
    hide Sound;
    var g := Extended(f, c);
    GrownChain(v, Table(v, a), f, c);
    FileSectorsSound(v, a, f.sclust, f.chain);
    FileSectorsSound(v, b, g.sclust, g.chain);
    VolumeBounds(v);
    SectorsPrefix(v, f.chain, g.chain);
    HoldsFrame(a, FileSectors(v, f.chain), f.data, f.sect, f.dirty, f.buf, b);
    HoldsResize(b, FileSectors(v, f.chain), f.data, f.sect, f.dirty, f.buf, FileSectors(v, g.chain), f.data);
  }

  /** Sector and cluster indices of a position on a sector boundary. */
  lemma BoundaryIndex(p: nat, csize: nat)
    requires csize > 0 && p % SS == 0 && p > 0
    ensures (p - 1) / SS == p / SS - 1
    ensures p / SS % csize == 0 ==> (p - 1) / SS / csize == p / SS / csize - 1
    ensures p / SS % csize != 0 ==> (p - 1) / SS / csize == p / SS / csize
  {
    var q := p / SS;
    DivModFacts(p, SS);
    DivModUnique(p - 1, SS, q - 1, SS - 1);
    DivModFacts(q, csize);
    if q % csize == 0 {
      assert csize * (q / csize - 1) == csize * (q / csize) - csize;
      DivModUnique(q - 1, csize, q / csize - 1, csize - 1);
    } else {
      DivModUnique(q - 1, csize, q / csize, q % csize - 1);
    }
  }

  /** A position within the chain's capacity falls in one of its sectors and clusters. */
  lemma Capacity(v: Volume, f: FileView)
    requires v.csize > 0 && f.fptr <= SS * (|f.chain| * v.csize)
    ensures f.fptr > 0 ==> (f.fptr - 1) / SS < |f.chain| * v.csize && (f.fptr - 1) / SS / v.csize < |f.chain|
    ensures f.fptr < SS * (|f.chain| * v.csize) ==>
      f.fptr / SS < |f.chain| * v.csize && f.fptr / SS / v.csize < |f.chain|
    ensures f.fptr / SS <= |f.chain| * v.csize && f.fptr / SS / v.csize <= |f.chain|
  {
    DivModFacts(f.fptr, SS);
    if f.fptr > 0 {
      DivModFacts(f.fptr - 1, SS);
      ClusterOfSector(v, f.chain, (f.fptr - 1) / SS);
    }
    if f.fptr / SS < |f.chain| * v.csize {
      ClusterOfSector(v, f.chain, f.fptr / SS);
    } else {
      DivModUnique(f.fptr / SS, v.csize, |f.chain|, 0);
    }
  }

  /** The position is on a cluster boundary. */
  predicate OnBoundary(v: Volume, p: nat)
    requires v.csize > 0
  {
    p % SS == 0 && p / SS % v.csize == 0
  }

  /** Index in the chain of the cluster at a position. */
  function ClusterIndex(v: Volume, p: nat): nat
    requires v.csize > 0
  {
    p / SS / v.csize
  }

  /** On a cluster boundary, the current cluster is the one before the position's. */
  lemma BoundaryPosition(v: Volume, f: FileView)
    requires v.csize > 0 && Position(v, f) && f.fptr <= SS * (|f.chain| * v.csize) && OnBoundary(v, f.fptr)
    ensures ClusterIndex(v, f.fptr) <= |f.chain|
    ensures f.fptr == 0 <==> ClusterIndex(v, f.fptr) == 0
    ensures f.fptr > 0 ==> f.clust == f.chain[ClusterIndex(v, f.fptr) - 1]
  {
    Capacity(v, f);
    DivModFacts(f.fptr, SS);
    DivModFacts(f.fptr / SS, v.csize);
    if f.fptr > 0 {
      BoundaryIndex(f.fptr, v.csize);
    }
  }

  /** A boundary with no cluster at it is the end of the chain. */
  lemma BoundaryEnd(v: Volume, f: FileView)
    requires v.csize > 0 && OnBoundary(v, f.fptr) && f.fptr <= f.objsize <= SS * (|f.chain| * v.csize)
    ensures ClusterIndex(v, f.fptr) == |f.chain| ==> f.fptr == f.objsize
  {
    DivModFacts(f.fptr, SS);
    DivModFacts(f.fptr / SS, v.csize);
  }

  /** On a cluster boundary, having the position's cluster is what a transfer needs. */
  lemma BoundaryAt(v: Volume, f: FileView)
    requires v.csize > 0 && OnBoundary(v, f.fptr) && ClusterIndex(v, f.fptr) < |f.chain|
    requires f.clust == f.chain[ClusterIndex(v, f.fptr)]
    ensures At(v, f)
  {
    DivModFacts(f.fptr / SS, v.csize);
    MulStep(v.csize, f.fptr / SS / v.csize, |f.chain|);
  }

  /** Off a cluster boundary, the current cluster is already the one at the position. */
  lemma PositionIsAt(v: Volume, f: FileView)
    requires v.csize > 0 && Position(v, f) && f.fptr < SS * (|f.chain| * v.csize)
    requires f.fptr % SS != 0 || f.fptr / SS % v.csize != 0
    ensures At(v, f)
  {
    Capacity(v, f);
    if f.fptr % SS == 0 {
      BoundaryIndex(f.fptr, v.csize);
    } else {
      DivModFacts(f.fptr, SS);
      DivModUnique(f.fptr - 1, SS, f.fptr / SS, f.fptr % SS - 1);
    }
  }

  /** `s` is the sector of the position. */
  ghost predicate SectorIs(v: Volume, f: FileView, s: int)
    requires v.csize > 0
  {
    At(v, f) && s == FileSectors(v, f.chain)[f.fptr / SS]
  }

  /** The sector offset in the cluster, as f_read and f_write mask it out of the position. */
  function SectorOffset(v: Volume, p: nat): nat
    requires v.csize > 0
  {
    And(p / SS, v.csize - 1)
  }

  lemma SectorOffsetIs(v: Volume, p: nat)
    requires Sound(v)
    ensures SectorOffset(v, p) == p / SS % v.csize < v.csize
    ensures p % SS == 0 ==> (SectorOffset(v, p) == 0 <==> OnBoundary(v, p))
  {
    MaskIsRemainder(p / SS, v.csize);
  }

  /** The sector clst2sect and the sector offset give for a position is the file's sector there. */
  lemma AtSector(v: Volume, img: Image, ws: nat, f: FileView)
    requires Fits(v, img) && Core(v, img, ws, f) && At(v, f)
    ensures 2 <= f.clust < v.nFatent && Clst2Sect(v, f.clust) > 0
    ensures SectorIs(v, f, Clst2Sect(v, f.clust) + SectorOffset(v, f.fptr))
  {
    hide FileSectors;
    SectorOffsetIs(v, f.fptr);
    SectorInCluster(v, f.chain, f.fptr / SS);
    ClusterInData(v, f.clust, ClusterSector(v, f.clust));
  }

  /** After `n` bytes of one cluster have been transferred, the current cluster is still the right one. */
  lemma Advance(v: Volume, f: FileView, n: nat, g: FileView)
    requires v.csize > 0 && At(v, f) && 0 < n && f.fptr % SS + n <= SS * (v.csize - f.fptr / SS % v.csize)
    requires g.fptr == f.fptr + n && g.clust == f.clust && g.chain == f.chain
    requires (g.fptr % SS != 0 ==> f.fptr % SS + n < SS && g.sect == FileSectors(v, f.chain)[f.fptr / SS])
    ensures Position(v, g) && g.fptr <= SS * (|f.chain| * v.csize)
  {
    var q := f.fptr / SS;
    DivModFacts(f.fptr, SS);
    DivModFacts(g.fptr - 1, SS);
    var j := (g.fptr - 1) / SS - q;
    assert 0 <= j;
    assert q % v.csize + j < v.csize;
    SectorsConsecutive(v, f.chain, q, j);
    DivModFacts(q, v.csize);
    DivModUnique(q + j, v.csize, q / v.csize, q % v.csize + j);
    if g.fptr % SS != 0 {
      DivModUnique(g.fptr, SS, q, f.fptr % SS + n);
    }
  }

  /** A run of a file's sectors lies in the data area and clear of the window. */
  lemma RunInData(v: Volume, img: Image, ws: nat, f: FileView, q: nat, cc: nat, s: int)
    requires Fits(v, img) && Core(v, img, ws, f) && 0 < cc && Run(FileSectors(v, f.chain), q, cc, s)
    ensures v.database <= s && s + cc <= End(v) && !(s <= ws < s + cc)
  {
    hide FileSectors;
    FileSectorsSound(v, img, f.sclust, f.chain);
    var secs := FileSectors(v, f.chain);
    assert secs[q] == s && secs[q + cc - 1] == s + cc - 1;
    if s <= ws < s + cc {
      var j := RunCovers(secs, q, cc, s, ws);
    }
  }

  /** The file after `w` has been written at its position and the position has moved past it. */
  function AfterWrite(f: FileView, w: seq<Byte>, dirty: bool, buf: Sector): FileView
    requires f.fptr <= |f.data|
  {
    var d := Overwrite(f.data, f.fptr, w);
    f.(data := d, objsize := |d|, fptr := f.fptr + |w|, dirty := dirty, buf := buf)
  }

  /** Whole sectors written directly keep the invariant and leave other files alone. */
  lemma CoreDirect(v: Volume, a: Image, b: Image, ws: nat, f: FileView, q: nat, cc: nat, s: int, w: seq<Byte>,
      buf: Sector)
    requires Fits(v, a) && Core(v, a, ws, f) && !f.dirty && |b| == |a| && SameFat1(v, b, a)
    requires f.fptr == SS * q && |w| == SS * cc && f.fptr + |w| < TWO32
    requires Run(FileSectors(v, f.chain), q, cc, s) && Chunks(b, s, cc, w)
    requires forall k :: 0 <= k < |a| && !(s <= k < s + cc) ==> b[k] == a[k]
    requires buf == if s <= f.sect < s + cc then Chunk(w, f.sect - s) else f.buf
    ensures Fits(v, b) && Core(v, b, ws, AfterWrite(f, w, false, buf)) && Frame(v, a, b, f.chain, f.chain)
  {
    hide FileSectors;
    hide Table;
    hide Sound;
    SameTable(v, a, b);
    VolumeBounds(v);
    FileSectorsSound(v, a, f.sclust, f.chain);
    var secs := FileSectors(v, f.chain);
    HoldsRun(a, b, secs, f.data, f.sect, f.buf, buf, q, cc, s, w);
    forall k | 0 <= k < |a| && k !in secs
      ensures b[k] == a[k]
    {
      if s <= k < s + cc {
        var j := RunCovers(secs, q, cc, s, k);
      }
    }
  }

  /** Bytes patched into the buffer of the current sector keep the invariant. */
  lemma CorePatch(v: Volume, img: Image, ws: nat, f: FileView, w: seq<Byte>, buf: Sector)
    requires Fits(v, img) && Core(v, img, ws, f) && f.fptr / SS < |FileSectors(v, f.chain)|
    requires f.sect == FileSectors(v, f.chain)[f.fptr / SS]
    requires f.fptr % SS + |w| <= SS && f.fptr + |w| < TWO32
    requires buf == f.buf[..f.fptr % SS] + w + f.buf[f.fptr % SS + |w|..]
    ensures Core(v, img, ws, AfterWrite(f, w, true, buf))
  {
    hide FileSectors;
    hide Table;
    FileSectorsSound(v, img, f.sclust, f.chain);
    HoldsPatch(img, FileSectors(v, f.chain), f.data, f.dirty, f.buf, f.fptr, w, buf);
    DivModFacts(f.fptr, SS);
  }

  /** The buffer is on the sector of the position. */
  ghost predicate OnSector(v: Volume, f: FileView)
    requires v.csize > 0
  {
    SectorIs(v, f, f.sect)
  }

  /** One transfer through the buffer. */
  lemma PatchStep(v: Volume, img: Image, ws: nat, f: FileView, w: seq<Byte>, buf: Sector)
    requires Fits(v, img) && Core(v, img, ws, f) && OnSector(v, f)
    requires w != [] && f.fptr % SS + |w| <= SS && f.fptr + |w| < TWO32
    requires buf == f.buf[..f.fptr % SS] + w + f.buf[f.fptr % SS + |w|..]
    ensures FileOk(v, img, ws, AfterWrite(f, w, true, buf))
  {
    hide FileSectors;
    hide Table;
    hide Core;
    hide Position;
    CoreCapacity(v, img, ws, f);
    CorePatch(v, img, ws, f, w, buf);
    AdvanceInSector(v, f, |w|, AfterWrite(f, w, true, buf));
  }

  /** After a transfer within one sector, the position clauses hold again. */
  lemma AdvanceInSector(v: Volume, f: FileView, n: nat, g: FileView)
    requires v.csize > 0 && OnSector(v, f) && 0 < n && f.fptr % SS + n <= SS
    requires g.fptr == f.fptr + n && g.clust == f.clust && g.chain == f.chain && g.sect == f.sect
    ensures Position(v, g)
  {
    hide Position;
    hide FileSectors;
    DivModFacts(f.fptr / SS, v.csize);
    DivModFacts(f.fptr, SS);
    if f.fptr % SS + n == SS {
      DivModUnique(g.fptr, SS, f.fptr / SS + 1, 0);
    }
    Advance(v, f, n, g);
  }

  /** `cc` whole sectors from drive sector `s` on can be transferred directly at the position: they stay in its
      cluster. */
  ghost predicate DirectAt(v: Volume, f: FileView, cc: nat, s: int)
    requires v.csize > 0
  {
    && SectorIs(v, f, s) && f.fptr % SS == 0
    && 0 < cc && f.fptr / SS % v.csize + cc <= v.csize
  }

  /** One direct transfer of whole sectors. */
  lemma DirectStep(v: Volume, a: Image, b: Image, ws: nat, f: FileView, cc: nat, s: int, w: seq<Byte>, buf: Sector)
    requires Fits(v, a) && Core(v, a, ws, f) && !f.dirty && |b| == |a| && SameFat1(v, b, a)
    requires DirectAt(v, f, cc, s) && |w| == SS * cc && f.fptr + |w| < TWO32
    requires Chunks(b, s, cc, w)
    requires forall k :: 0 <= k < |a| && !(s <= k < s + cc) ==> b[k] == a[k]
    requires buf == if s <= f.sect < s + cc then Chunk(w, f.sect - s) else f.buf
    ensures Fits(v, b) && FileOk(v, b, ws, AfterWrite(f, w, false, buf)) && Frame(v, a, b, f.chain, f.chain)
  {
    hide FileSectors;
    hide Table;
    hide Core;
    hide Position;
    hide Frame;
    CoreCapacity(v, a, ws, f);
    DivModFacts(f.fptr, SS);
    RunOfSectors(v, f.chain, f.fptr / SS, cc);
    CoreDirect(v, a, b, ws, f, f.fptr / SS, cc, s, w, buf);
    DivModUnique(f.fptr + SS * cc, SS, f.fptr / SS + cc, 0);
    Advance(v, f, SS * cc, AfterWrite(f, w, false, buf));
  }

  /** The sectors of a direct transfer lie in the data area and clear of the window. */
  lemma DirectRange(v: Volume, img: Image, ws: nat, f: FileView, cc: nat, s: int)
    requires Fits(v, img) && Core(v, img, ws, f) && DirectAt(v, f, cc, s)
    ensures v.database <= s && s + cc <= End(v) < TWO32 && s + cc <= |img| && !(s <= ws < s + cc) && f.sect < TWO32
  {
    hide FileSectors;
    RunOfSectors(v, f.chain, f.fptr / SS, cc);
    RunInData(v, img, ws, f, f.fptr / SS, cc, s);
  }

  /** The drive sector of the position, with the file's buffer clean: where it lies. */
  lemma SectorPlace(v: Volume, img: Image, ws: nat, f: FileView, s: int)
    requires Fits(v, img) && Core(v, img, ws, f) && SectorIs(v, f, s)
    ensures v.database <= s < End(v) < TWO32 && s < |img| && s != ws
  {
    hide FileSectors;
    FileSectorsSound(v, img, f.sclust, f.chain);
    assert s in FileSectors(v, f.chain);
  }

  /** Loading the position's sector into a clean buffer. */
  lemma LoadStep(v: Volume, img: Image, ws: nat, f: FileView, s: nat)
    requires Fits(v, img) && Core(v, img, ws, f) && !f.dirty && SectorIs(v, f, s) && s < |img|
    ensures Core(v, img, ws, f.(sect := s, buf := img[s])) && OnSector(v, f.(sect := s, buf := img[s]))
  {
    hide FileSectors;
    hide Table;
    SectorPlace(v, img, ws, f, s);
    HoldsLoad(img, FileSectors(v, f.chain), f.data, f.sect, f.buf, s);
  }

  /** Mid-sector, the buffer is on the position's sector. */
  lemma MidSector(v: Volume, img: Image, ws: nat, f: FileView)
    requires Fits(v, img) && FileOk(v, img, ws, f) && f.fptr % SS != 0
    ensures OnSector(v, f)
  {
    hide FileSectors;
    CoreCapacity(v, img, ws, f);
    if f.fptr == SS * (|f.chain| * v.csize) {
      DivModUnique(f.fptr, SS, |f.chain| * v.csize, 0);
    }
    PositionIsAt(v, f);
  }

  /** On the growing edge the buffer need not be loaded. */
  lemma FreshStep(v: Volume, img: Image, ws: nat, f: FileView, s: nat)
    requires Fits(v, img) && Core(v, img, ws, f) && !f.dirty && SectorIs(v, f, s)
    requires f.sect == s || (f.fptr % SS == 0 && f.fptr >= f.objsize)
    ensures Core(v, img, ws, f.(sect := s)) && OnSector(v, f.(sect := s))
  {
    hide FileSectors;
    hide Table;
    SectorPlace(v, img, ws, f, s);
    FileSectorsSound(v, img, f.sclust, f.chain);
    DivModFacts(f.fptr, SS);
    if f.sect != s {
      HoldsFresh(img, FileSectors(v, f.chain), f.data, f.sect, f.buf, f.fptr / SS);
    }
  }

  /** From `f` on image `a` to `g` on image `b`: `w` was written at the position, growing no chain but this file's. */
  ghost predicate Wrote(v: Volume, a: Image, b: Image, f: FileView, g: FileView, w: seq<Byte>)
  {
    && Fits(v, a) && Fits(v, b)
    && f.fptr <= |f.data|
    && g.data == Overwrite(f.data, f.fptr, w)
    && g.fptr == f.fptr + |w|
    && f.chain <= g.chain
    && Frame(v, a, b, f.chain, g.chain)
  }

  /** Writes one after the other make one longer write. */
  lemma OverwriteTwice(data: Content, p: nat, a: seq<Byte>, b: seq<Byte>)
    requires p <= |data|
    ensures Overwrite(Overwrite(data, p, a), p + |a|, b) == Overwrite(data, p, a + b)
  {
  }

  /** A write of `w`, out of `asked` bytes, came up short only if the volume is full. */
  ghost predicate ShortOnlyIfFull(v: Volume, img: Image, exact: bool, got: nat, asked: nat)
    requires Fits(v, img)
  {
    exact && got < asked ==> NoFree(Table(v, img))
  }

  lemma WroteNothing(v: Volume, a: Image, f: FileView)
    requires Fits(v, a) && f.fptr <= |f.data|
    ensures Wrote(v, a, a, f, f, [])
  {
    FrameSame(v, a, f.chain);
    assert Overwrite(f.data, f.fptr, []) == f.data;
  }

  lemma WroteTrans(v: Volume, a: Image, b: Image, c: Image, f: FileView, g: FileView, h: FileView, x: seq<Byte>,
      y: seq<Byte>)
    requires Wrote(v, a, b, f, g, x) && Wrote(v, b, c, g, h, y)
    ensures Wrote(v, a, c, f, h, x + y) && h.fptr == f.fptr + |x| + |y|
  {
    hide Overwrite;
    hide Frame;
    OverwriteTwice(f.data, f.fptr, x, y);
    FrameTrans(v, a, b, c, f.chain, g.chain, h.chain);
  }

  lemma WroteNoNewOne(v: Volume, a: Image, b: Image, ws: nat, f: FileView, g: FileView, w: seq<Byte>)
    requires Wrote(v, a, b, f, g, w) && Core(v, b, ws, g)
    ensures HasOne(Table(v, b)) ==> HasOne(Table(v, a))
  {
    hide Table;
    hide FileSectors;
    hide Holds;
    hide Frame;
    hide HasOne;
    NoNewOne(v, a, b, f.chain, g.sclust, g.chain);
  }

  /** The bytes handed to the caller are the content's, wherever the content is specified. */
  predicate Delivers(data: Content, p: nat, out: seq<Byte>)
  {
    p + |out| <= |data| && forall k :: 0 <= k < |out| ==> Agrees(data[p + k], out[k])
  }

  lemma DeliversTwice(data: Content, p: nat, a: seq<Byte>, b: seq<Byte>)
    requires Delivers(data, p, a) && Delivers(data, p + |a|, b)
    ensures Delivers(data, p, a + b)
  {
    forall k | 0 <= k < |a + b|
      ensures Agrees(data[p + k], (a + b)[k])
    {
      if k >= |a| {
        assert Agrees(data[p + |a| + (k - |a|)], b[k - |a|]);
      }
    }
  }

  /** Below the size there is a cluster at every boundary. */
  lemma BoundaryInside(v: Volume, f: FileView)
    requires v.csize > 0 && f.fptr < SS * (|f.chain| * v.csize)
    ensures ClusterIndex(v, f.fptr) < |f.chain|
  {
    Capacity(v, f);
  }

  /** The buffer's bytes are the content's. */
  lemma BufferDelivers(v: Volume, img: Image, ws: nat, f: FileView, n: nat)
    requires Fits(v, img) && Core(v, img, ws, f) && OnSector(v, f)
    requires f.fptr % SS + n <= SS && f.fptr + n <= f.objsize
    ensures Delivers(f.data, f.fptr, f.buf[f.fptr % SS..f.fptr % SS + n])
  {
    hide FileSectors;
    hide Table;
    var out := f.buf[f.fptr % SS..f.fptr % SS + n];
    DivModFacts(f.fptr, SS);
    forall k | 0 <= k < |out|
      ensures Agrees(f.data[f.fptr + k], out[k])
    {
      DivModUnique(f.fptr + k, SS, f.fptr / SS, f.fptr % SS + k);
    }
  }

  /** The caller's bytes after a direct read: the drive's, with the dirty buffer patched over its sector. */
  ghost predicate DirectRead(img: Image, f: FileView, s: int, cc: nat, out: seq<Byte>)
    requires 0 <= s && s + cc <= |img|
  {
    && |out| == SS * cc
    && forall i :: 0 <= i < |out| ==>
      out[i] == if f.dirty && s <= f.sect < s + cc && i / SS == f.sect - s then f.buf[i % SS]
        else img[s + i / SS][i % SS]
  }

  lemma DirectDelivers(v: Volume, img: Image, ws: nat, f: FileView, cc: nat, s: int, out: seq<Byte>)
    requires Fits(v, img) && Core(v, img, ws, f) && DirectAt(v, f, cc, s)
    requires 0 <= s && s + cc <= |img| && DirectRead(img, f, s, cc, out) && f.fptr + SS * cc <= f.objsize
    ensures Delivers(f.data, f.fptr, out)
  {
    hide FileSectors;
    hide Table;
    hide Sound;
    hide FileChain;
    var secs, q := FileSectors(v, f.chain), f.fptr / SS;
    DivModFacts(f.fptr, SS);
    RunOfSectors(v, f.chain, q, cc);
    forall k | 0 <= k < |out|
      ensures Agrees(f.data[f.fptr + k], out[k])
    {
      DivModFacts(k, SS);
      DivModUnique(f.fptr + k, SS, q + k / SS, k % SS);
      assert secs[q + k / SS] == s + k / SS;
    }
  }

  /** Moving the position past `n` bytes of a direct transfer or of the current sector. */
  lemma DirectAdvance(v: Volume, img: Image, ws: nat, f: FileView, cc: nat, s: int)
    requires Fits(v, img) && Core(v, img, ws, f) && DirectAt(v, f, cc, s) && f.fptr + SS * cc <= f.objsize
    ensures FileOk(v, img, ws, f.(fptr := f.fptr + SS * cc))
  {
    hide FileSectors;
    hide Table;
    DivModFacts(f.fptr, SS);
    DivModUnique(f.fptr + SS * cc, SS, f.fptr / SS + cc, 0);
    Advance(v, f, SS * cc, f.(fptr := f.fptr + SS * cc));
  }

  lemma BufferAdvance(v: Volume, img: Image, ws: nat, f: FileView, n: nat)
    requires Fits(v, img) && Core(v, img, ws, f) && OnSector(v, f)
    requires 0 < n && f.fptr % SS + n <= SS && f.fptr + n <= f.objsize
    ensures FileOk(v, img, ws, f.(fptr := f.fptr + n))
  {
    hide FileSectors;
    hide Table;
    hide OnSector;
    hide Position;
    AdvanceInSector(v, f, n, f.(fptr := f.fptr + n));
  }

  /** Byte `p` of a file is `b`: in its cluster's place on the raw drive, or in the dirty buffer over it. */
  ghost predicate ByteIs(v: Volume, raw: Image, f: FileView, p: nat, b: Byte)
  {
    && v.csize > 0 && p / 512 / v.csize < |f.chain|
    && var s := v.database + v.csize * (f.chain[p / 512 / v.csize] as int - 2) + p / 512 % v.csize;
       0 <= s < |raw| && b == if f.dirty && f.sect == s then f.buf[p % 512] else raw[s][p % 512]
  }

  /** The specified bytes of an open file are where its clusters lie on the raw drive. */
  lemma ByteOnDrive(v: Volume, raw: Image, dirty: bool, at: nat, w: Sector, f: FileView, p: nat)
    requires Fits(v, raw) && Core(v, Overlay(v, raw, dirty, at, w), at, f)
    requires p < |f.data| && f.data[p].Some?
    ensures ByteIs(v, raw, f, p, f.data[p].value)
  {
    hide FileSectors;
    hide Table;
    hide Sound;
    var img := Overlay(v, raw, dirty, at, w);
    VolumeBounds(v);
    CoreCapacity(v, img, at, f);
    FileSectorsSound(v, img, f.sclust, f.chain);
    DivModFacts(p, SS);
    SectorInCluster(v, f.chain, p / SS);
    assert Agrees(f.data[p], if f.dirty && FileSectors(v, f.chain)[p / SS] == f.sect then f.buf[p % SS]
                             else img[FileSectors(v, f.chain)[p / SS]][p % SS]);
  }

  /** All of them. */
  ghost predicate InPlace(v: Volume, raw: Image, f: FileView)
  {
    forall p :: 0 <= p < |f.data| && f.data[p].Some? ==> ByteIs(v, raw, f, p, f.data[p].value)
  }

  lemma AllInPlace(v: Volume, raw: Image, dirty: bool, at: nat, w: Sector, f: FileView)
    requires Fits(v, raw) && Core(v, Overlay(v, raw, dirty, at, w), at, f)
    ensures InPlace(v, raw, f)
  {
    hide Core;
    hide Overlay;
    hide ByteIs;
    forall p | 0 <= p < |f.data| && f.data[p].Some?
      ensures ByteIs(v, raw, f, p, f.data[p].value)
    {
      ByteOnDrive(v, raw, dirty, at, w, f, p);
    }
  }

  /** What is delivered is what lies there. */
  lemma DeliveredPlaces(v: Volume, raw: Image, f: FileView, out: seq<Byte>)
    requires InPlace(v, raw, f) && Delivers(f.data, f.fptr, out)
    ensures forall k :: 0 <= k < |out| && f.data[f.fptr + k].Some? ==> ByteIs(v, raw, f, f.fptr + k, out[k])
  {
    hide ByteIs;
    forall k | 0 <= k < |out| && f.data[f.fptr + k].Some?
      ensures ByteIs(v, raw, f, f.fptr + k, out[k])
    {
      assert Agrees(f.data[f.fptr + k], out[k]);
    }
  }

  /** What was written lies there. */
  lemma WrittenPlaces(v: Volume, raw: Image, a: Image, b: Image, f: FileView, g: FileView, w: seq<Byte>)
    requires Wrote(v, a, b, f, g, w) && InPlace(v, raw, g)
    ensures forall k :: 0 <= k < |w| ==> ByteIs(v, raw, g, f.fptr + k, w[k])
  {
    hide ByteIs;
    hide Frame;
    forall k | 0 <= k < |w|
      ensures ByteIs(v, raw, g, f.fptr + k, w[k])
    {
      assert g.data[f.fptr + k] == Some(w[k]);
    }
  }
}
