/** How a file's bytes lie in its sectors and its sector buffer. */
module FileData {
  import opened Arith
  import opened Bytes
  import opened Layout

  /** A file's bytes; None for a byte no one has written since the file was extended over it. */
  type Content = seq<Option<Byte>>

  /** The sectors of a chain of clusters, in file order. */
  function FileSectors(v: Volume, chain: seq<nat>): (s: seq<int>)
    requires v.csize > 0
    ensures |s| == |chain| * v.csize
  {
    seq(|chain| * v.csize, q requires 0 <= q < |chain| * v.csize => FileSector(v, chain, q))
  }

  function FileSector(v: Volume, chain: seq<nat>, q: int): int
    requires v.csize > 0 && 0 <= q < |chain| * v.csize
  {
    ClusterOfSector(v, chain, q);
    ClusterSector(v, chain[q / v.csize]) + q % v.csize
  }

  lemma ClusterOfSector(v: Volume, chain: seq<nat>, q: int)
    requires v.csize > 0 && 0 <= q < |chain| * v.csize
    ensures 0 <= q / v.csize < |chain|
  {
    DivModFacts(q, v.csize);
    if q / v.csize >= |chain| {
      MulMono(v.csize, |chain|, q / v.csize);
    }
  }

  ghost predicate Distinct(s: seq<int>)
  {
    forall i, j :: 0 <= i < j < |s| ==> s[i] != s[j]
  }

  /** Sector `q` of a file lies in cluster q / csize of its chain. */
  lemma SectorInCluster(v: Volume, chain: seq<nat>, q: int)
    requires v.csize > 0 && 0 <= q < |chain| * v.csize
    ensures 0 <= q / v.csize < |chain| && InCluster(v, chain[q / v.csize], FileSectors(v, chain)[q])
    ensures FileSectors(v, chain)[q] == ClusterSector(v, chain[q / v.csize]) + q % v.csize
  {
    ClusterOfSector(v, chain, q);
    assert FileSectors(v, chain)[q] == FileSector(v, chain, q);
  }

  /** Sectors of distinct clusters are distinct. */
  lemma SectorsDistinct(v: Volume, chain: seq<nat>)
    requires Sound(v) && forall i, j :: 0 <= i < j < |chain| ==> chain[i] != chain[j]
    ensures Distinct(FileSectors(v, chain))
  {
    var s := FileSectors(v, chain);
    forall i, j | 0 <= i < j < |s|
      ensures s[i] != s[j]
    {
      SectorInCluster(v, chain, i);
      SectorInCluster(v, chain, j);
      DivModFacts(i, v.csize);
      DivModFacts(j, v.csize);
      if s[i] == s[j] {
        ClustersDisjoint(v, chain[i / v.csize], chain[j / v.csize], s[i]);
        assert false;
      }
    }
  }

  /** The sectors of a longer chain start with those of the shorter one. */
  lemma SectorsPrefix(v: Volume, chain: seq<nat>, more: seq<nat>)
    requires v.csize > 0 && chain <= more
    ensures FileSectors(v, chain) <= FileSectors(v, more)
  {
    var a, b := FileSectors(v, chain), FileSectors(v, more);
    MulMono(v.csize, |chain|, |more|);
    forall q | 0 <= q < |a|
      ensures a[q] == b[q]
    {
      SectorInCluster(v, chain, q);
      SectorInCluster(v, more, q);
    }
  }

  /** Within a cluster, consecutive file sectors are consecutive on the drive. */
  lemma SectorsConsecutive(v: Volume, chain: seq<nat>, q: nat, j: nat)
    requires v.csize > 0 && q < |chain| * v.csize && q % v.csize + j < v.csize
    ensures q + j < |chain| * v.csize
    ensures FileSectors(v, chain)[q + j] == FileSectors(v, chain)[q] + j
  {
    ClusterOfSector(v, chain, q);
    DivModFacts(q, v.csize);
    DivModUnique(q + j, v.csize, q / v.csize, q % v.csize + j);
    MulStep(v.csize, q / v.csize, |chain|);
    SectorInCluster(v, chain, q);
    SectorInCluster(v, chain, q + j);
  }

  /** A stored byte is right if the content does not say what it should be, or says just that. */
  predicate Agrees(d: Option<Byte>, b: Byte)
  {
    d.Some? ==> d.value == b
  }

  /** All sectors of a file are on the drive. */
  ghost predicate OnDrive(img: Image, secs: seq<int>)
  {
    forall q :: 0 <= q < |secs| ==> 0 <= secs[q] < |img|
  }

  /** The sector buffer agrees with the bytes of the sector it holds, and so does the drive except under a dirty
      buffer. */
  ghost predicate Holds(img: Image, secs: seq<int>, data: Content, sect: int, dirty: bool, buf: Sector)
  {
    && OnDrive(img, secs)
    && |data| <= SS * |secs|
    && (forall i :: 0 <= i < |data| && secs[i / SS] == sect ==> Agrees(data[i], buf[i % SS]))
    && (forall i :: 0 <= i < |data| && !(dirty && secs[i / SS] == sect) ==> Agrees(data[i], img[secs[i / SS]][i % SS]))
  }

  /** The content after writing `w` at `p`. */
  function Overwrite(data: Content, p: nat, w: seq<Byte>): (r: Content)
    requires p <= |data|
    ensures |r| == if p + |w| > |data| then p + |w| else |data|
    ensures forall i :: 0 <= i < |r| ==> r[i] == if p <= i < p + |w| then Some(w[i - p]) else data[i]
  {
    data[..p] + seq(|w|, i requires 0 <= i < |w| => Some(w[i])) + if p + |w| <= |data| then data[p + |w|..] else []
  }

  /** Writing a dirty buffer back to its sector. */
  lemma HoldsFlush(img: Image, secs: seq<int>, data: Content, sect: int, buf: Sector)
    requires Holds(img, secs, data, sect, true, buf) && 0 <= sect < |img|
    ensures Holds(img[sect := buf], secs, data, sect, false, buf)
  {
  }

  /** Loading another sector into a clean buffer. */
  lemma HoldsLoad(img: Image, secs: seq<int>, data: Content, sect: int, buf: Sector, s: int)
    requires Holds(img, secs, data, sect, false, buf) && 0 <= s < |img|
    ensures Holds(img, secs, data, s, false, img[s])
  {
  }

  /** Moving a clean buffer to a sector beyond the data without loading it. */
  lemma HoldsFresh(img: Image, secs: seq<int>, data: Content, sect: int, buf: Sector, q: nat)
    requires Holds(img, secs, data, sect, false, buf) && Distinct(secs) && q < |secs| && |data| <= SS * q
    ensures Holds(img, secs, data, secs[q], false, buf)
  {
  }

  /** One byte of a patched buffer. */
  lemma PatchByte(data: Content, buf: Sector, p: nat, w: seq<Byte>, patched: Sector, i: nat)
    requires p <= |data| && p % SS + |w| <= SS && patched == buf[..p % SS] + w + buf[p % SS + |w|..]
    requires i < |Overwrite(data, p, w)| && i / SS == p / SS && (i < |data| ==> Agrees(data[i], buf[i % SS]))
    ensures Agrees(Overwrite(data, p, w)[i], patched[i % SS])
  {
    hide Overwrite;
    DivModFacts(p, SS);
    DivModFacts(i, SS);
    assert i - p == i % SS - p % SS;
  }

  /** The bytes written lie in one sector. */
  lemma PatchRange(p: nat, n: nat, i: nat)
    requires p % SS + n <= SS
    ensures p <= i < p + n ==> i / SS == p / SS
    ensures p + n <= SS * (p / SS) + SS
  {
    DivModFacts(p, SS);
    if p <= i < p + n {
      DivModUnique(i, SS, p / SS, p % SS + (i - p));
    }
  }

  /** Writing part of one sector through the buffer. */
  lemma HoldsPatch(img: Image, secs: seq<int>, data: Content, dirty: bool, buf: Sector, p: nat, w: seq<Byte>,
      patched: Sector)
    requires p / SS < |secs| && p <= |data| && p % SS + |w| <= SS && Distinct(secs)
    requires Holds(img, secs, data, secs[p / SS], dirty, buf)
    requires patched == buf[..p % SS] + w + buf[p % SS + |w|..]
    ensures Holds(img, secs, Overwrite(data, p, w), secs[p / SS], true, patched)
  {
    hide Overwrite;
    hide Agrees;
    var sect, after := secs[p / SS], Overwrite(data, p, w);
    PatchRange(p, |w|, p);
    forall i | 0 <= i < |after|
      ensures i / SS < |secs|
      ensures if secs[i / SS] == sect then Agrees(after[i], patched[i % SS]) else i < |data| && after[i] == data[i]
    {
      DivModFacts(i, SS);
      PatchRange(p, |w|, i);
      if secs[i / SS] == sect {
        PatchByte(data, buf, p, w, patched, i);
      }
    }
  }

  /** The block of `w` that goes to file sector `q + j` of a direct write starting at sector `q`. */
  function Chunk(w: seq<Byte>, j: nat): Sector
    requires SS * j + SS <= |w|
  {
    w[SS * j..SS * j + SS]
  }

  /** The `cc` sectors from `s` on hold `w`. */
  ghost predicate Chunks(img: Image, s: int, cc: nat, w: seq<Byte>)
  {
    && 0 <= s && s + cc <= |img| && SS * cc <= |w|
    && forall j :: 0 <= j < cc ==> img[s + j] == Chunk(w, j)
  }

  /** Writing whole sectors directly, refreshing a clean buffer that holds one of them. */
  lemma HoldsDirect(img: Image, after: Image, secs: seq<int>, data: Content, sect: int, buf: Sector, newbuf: Sector,
                    q: nat, cc: nat, w: seq<Byte>)
    requires Holds(img, secs, data, sect, false, buf) && Distinct(secs)
    requires |w| == SS * cc && q + cc <= |secs| && SS * q <= |data| && |after| == |img|
    requires forall j :: q <= j < q + cc ==> after[secs[j]] == Chunk(w, j - q)
    requires forall s :: 0 <= s < |img| && (forall j :: q <= j < q + cc ==> secs[j] != s) ==> after[s] == img[s]
    requires forall j :: q <= j < q + cc && secs[j] == sect ==> newbuf == Chunk(w, j - q)
    requires (forall j :: q <= j < q + cc ==> secs[j] != sect) ==> newbuf == buf
    ensures Holds(after, secs, Overwrite(data, SS * q, w), sect, false, newbuf)
  {
    var d := Overwrite(data, SS * q, w);
    forall i | 0 <= i < |d|
      ensures Agrees(d[i], after[secs[i / SS]][i % SS])
      ensures secs[i / SS] == sect ==> Agrees(d[i], newbuf[i % SS])
    {
      DivModFacts(i, SS);
      var k := i / SS;
      if q <= k < q + cc {
        assert d[i] == Some(w[i - SS * q]) && Chunk(w, k - q)[i % SS] == w[i - SS * q];
      } else {
        assert d[i] == data[i];
      }
    }
  }

  /** `cc` file sectors from `q` on that are the `cc` drive sectors from `s` on. */
  ghost predicate Run(secs: seq<int>, q: nat, cc: nat, s: int)
  {
    q + cc <= |secs| && forall j :: q <= j < q + cc ==> secs[j] == s + (j - q)
  }

  /** Sectors of one cluster form a run. */
  lemma {:induction false} RunOfSectors(v: Volume, chain: seq<nat>, q: nat, cc: nat)
    requires v.csize > 0 && q < |chain| * v.csize && 0 < cc && q % v.csize + cc <= v.csize
    ensures Run(FileSectors(v, chain), q, cc, FileSectors(v, chain)[q])
  {
    hide FileSectors;
    if cc > 1 {
      RunOfSectors(v, chain, q, cc - 1);
    }
    SectorsConsecutive(v, chain, q, cc - 1);
  }

  /** A sector in the run's range is one of its sectors. */
  lemma RunCovers(secs: seq<int>, q: nat, cc: nat, s: int, k: int) returns (j: nat)
    requires Run(secs, q, cc, s) && s <= k < s + cc
    ensures q <= j < q + cc && secs[j] == k
  {
    j := q + (k - s);
  }

  /** HoldsDirect for a run of consecutive sectors. */
  lemma HoldsRun(img: Image, after: Image, secs: seq<int>, data: Content, sect: int, buf: Sector, newbuf: Sector,
                 q: nat, cc: nat, s: int, w: seq<Byte>)
    requires Holds(img, secs, data, sect, false, buf) && Distinct(secs) && Run(secs, q, cc, s)
    requires |w| == SS * cc && SS * q <= |data| && |after| == |img| && Chunks(after, s, cc, w)
    requires forall k :: 0 <= k < |img| && !(s <= k < s + cc) ==> after[k] == img[k]
    requires newbuf == if s <= sect < s + cc then Chunk(w, sect - s) else buf
    ensures Holds(after, secs, Overwrite(data, SS * q, w), sect, false, newbuf)
  {
    hide Holds;
    forall j | q <= j < q + cc
      ensures after[secs[j]] == Chunk(w, j - q)
    {
      assert after[s + (j - q)] == Chunk(w, j - q);
    }
    forall k | 0 <= k < |img| && forall j :: q <= j < q + cc ==> secs[j] != k
      ensures after[k] == img[k]
    {
      if s <= k < s + cc {
        var j := RunCovers(secs, q, cc, s, k);
        assert false;
      }
    }
    if s <= sect < s + cc {
      var j := RunCovers(secs, q, cc, s, sect);
    }
    HoldsDirect(img, after, secs, data, sect, buf, newbuf, q, cc, w);
  }

  /** A longer chain, a shorter content, or bytes not yet specified change nothing. */
  lemma HoldsResize(img: Image, secs: seq<int>, data: Content, sect: int, dirty: bool, buf: Sector, secs1: seq<int>,
      data1: Content)
    requires Holds(img, secs, data, sect, dirty, buf) && OnDrive(img, secs1)
    requires secs <= secs1 || secs1 <= secs
    requires |data1| <= SS * |secs1|
    requires forall i :: 0 <= i < |data1| && data1[i].Some? ==> i < |data| && data1[i] == data[i]
    ensures Holds(img, secs1, data1, sect, dirty, buf)
  {
  }

  /** Writes elsewhere change nothing. */
  lemma HoldsFrame(img: Image, secs: seq<int>, data: Content, sect: int, dirty: bool, buf: Sector, after: Image)
    requires Holds(img, secs, data, sect, dirty, buf) && |after| == |img|
    requires forall q :: 0 <= q < |secs| ==> after[secs[q]] == img[secs[q]]
    ensures Holds(after, secs, data, sect, dirty, buf)
  {
  }
}
