/** Reading a file off a raw image with nothing but its directory entry: what another FAT driver would see. */
module OnDisk {
  import opened Arith
  import opened Bytes
  import opened FatCodec
  import opened Layout
  import opened Window
  import opened FatAccess
  import opened Chains
  import opened Alloc
  import opened FileData
  import opened FileState
  import opened DirEntry
  import FT = FileTruncate

  /** Up to `n` clusters linked from `c`. */
  function Follow(t: seq<nat>, c: nat, n: nat): (cs: seq<nat>)
    ensures |cs| <= n
    decreases n
  {
    if n == 0 || c < 2 || c >= |t| then [] else [c] + Follow(t, t[c], n - 1)
  }

  lemma {:induction false} FollowChain(t: seq<nat>, cs: seq<nat>, n: nat)
    requires IsChain(t, cs) && n <= |cs|
    ensures Follow(t, cs[0], n) == cs[..n]
  {
    if n > 0 {
      ChainHead(t, cs);
      if n > 1 {
        ChainTail(t, cs);
        FollowChain(t, cs[1..], n - 1);
        assert cs[..n] == [cs[0]] + cs[1..][..n - 1];
      } else {
        assert cs[..1] == [cs[0]];
      }
    }
  }

  /** Byte `i` of the clusters `cs`. */
  function ByteAt(v: Volume, img: Image, cs: seq<nat>, i: nat): Byte
    requires v.csize > 0
  {
    if i / SS < |cs| * v.csize && 0 <= FileSectors(v, cs)[i / SS] < |img| then img[FileSectors(v, cs)[i / SS]][i % SS]
      else 0
  }

  /** The bytes the directory entry at `o` in sector `s` leads to; None when the chain is too short for the size. */
  function Decode(v: Volume, img: Image, s: nat, o: nat): Option<seq<Byte>>
    requires Fits(v, img) && s < |img| && o + SZDIRE <= SS
  {
    var size := LdSize(img[s], o);
    var cs := Follow(Table(v, img), LdClust(v.fsType, img[s], o), FT.ClustersFor(v, size));
    if |cs| < FT.ClustersFor(v, size) then None
    else Some(seq(size, i requires 0 <= i < size => ByteAt(v, img, cs, i)))
  }

  /** Following links one at a time. */
  lemma {:induction false} FollowLinks(t: seq<nat>, c: nat, n: nat)
    ensures var cs := Follow(t, c, n);
            && (cs != [] ==> cs[0] == c)
            && (forall k :: 0 <= k < |cs| ==> 2 <= cs[k] < |t|)
            && (forall k :: 0 < k < |cs| ==> cs[k] == t[cs[k - 1]])
    decreases n
  {
    if n > 0 && 2 <= c < |t| {
      FollowLinks(t, t[c], n - 1);
      var rest := Follow(t, t[c], n - 1);
      var cs := [c] + rest;
      forall k | 0 < k < |cs|
        ensures cs[k] == t[cs[k - 1]]
      {
        if k > 1 {
          assert cs[k] == rest[k - 1] && cs[k - 1] == rest[k - 2];
        }
      }
    }
  }

  /** What decoding reads, in plain bytes: the start and size at the entry's offsets, the links in the first FAT, and
      the content in the clusters they lead to. */
  lemma DecodeReads(v: Volume, img: Image, s: nat, o: nat, start: nat, size: nat) returns (cs: seq<nat>)
    requires Fits(v, img) && s < |img| && o + 32 <= 512 && Decode(v, img, s, o).Some?
    requires EntryNames(v.fsType, img[s], o, start, size)
    ensures |Decode(v, img, s, o).value| == size && (size > 0 ==> cs != [] && cs[0] == start)
    ensures forall k :: 0 < k < |cs| ==> cs[k] == PlainEntry(v, img, cs[k - 1])
    ensures forall i :: 0 <= i < size ==> DecodedByte(v, img, cs, i, Decode(v, img, s, o).value[i])
  {
    hide Table;
    hide Sound;
    hide PlainEntry;
    hide DecodedByte;
    hide ByteAt;
    VolumeBounds(v);
    FieldBytes(v.fsType, img[s], o);
    cs := Follow(Table(v, img), start, FT.ClustersFor(v, size));
    FollowLinks(Table(v, img), start, FT.ClustersFor(v, size));
    forall k | 0 < k < |cs|
      ensures cs[k] == PlainEntry(v, img, cs[k - 1])
    {
      TableBytes(v, img, cs[k - 1]);
    }
    forall i | 0 <= i < size
      ensures DecodedByte(v, img, cs, i, ByteAt(v, img, cs, i))
    {
      WithinClusters(v, size, i);
      PlaceOfByte(v, img, cs, i);
    }
  }

  /** Byte `i` of the clusters `cs` is `b`. */
  ghost predicate DecodedByte(v: Volume, img: Image, cs: seq<nat>, i: nat, b: Byte)
  {
    && v.csize > 0 && i / 512 / v.csize < |cs|
    && var s := v.database + v.csize * (cs[i / 512 / v.csize] as int - 2) + i / 512 % v.csize;
       0 <= s < |img| && b == img[s][i % 512]
  }

  lemma PlaceOfByte(v: Volume, img: Image, cs: seq<nat>, i: nat)
    requires Fits(v, img) && v.csize > 0 && i / SS < |cs| * v.csize
    requires forall k :: 0 <= k < |cs| ==> 2 <= cs[k] < v.nFatent
    ensures DecodedByte(v, img, cs, i, ByteAt(v, img, cs, i))
  {
    hide FileSectors;
    hide Sound;
    SectorInCluster(v, cs, i / SS);
    ClusterInData(v, cs[i / SS / v.csize], FileSectors(v, cs)[i / SS]);
  }

  /** The image alone carries the file: entry, chain, and data sectors. */
  ghost predicate Recorded(v: Volume, img: Image, s: nat, o: nat, f: FileView)
  {
    && Fits(v, img) && s < |img| && o + SZDIRE <= SS
    && LdClust(v.fsType, img[s], o) == f.sclust && LdSize(img[s], o) == f.objsize
    && |f.data| == f.objsize
    && FileChain(Table(v, img), f.sclust, f.chain)
    && Kept(img, FileSectors(v, f.chain), f.data)
  }

  /** The sectors hold the content. */
  ghost predicate Kept(img: Image, secs: seq<int>, data: Content)
  {
    && OnDrive(img, secs) && |data| <= SS * |secs|
    && forall i :: 0 <= i < |data| ==> Agrees(data[i], img[secs[i / SS]][i % SS])
  }

  /** A file with a clean buffer whose directory entry names its start cluster and size is on the image. */
  lemma CleanIsRecorded(v: Volume, img: Image, ws: nat, s: nat, o: nat, f: FileView)
    requires Fits(v, img) && Core(v, img, ws, f) && !f.dirty && s < |img| && o + SZDIRE <= SS
    requires LdClust(v.fsType, img[s], o) == f.sclust && LdSize(img[s], o) == f.objsize
    ensures Recorded(v, img, s, o, f)
  {
    hide FileSectors;
    hide Table;
  }

  /** What is recorded is read back: every byte the content specifies. */
  lemma RecordedDecodes(v: Volume, img: Image, s: nat, o: nat, f: FileView)
    requires Recorded(v, img, s, o, f)
    ensures Decode(v, img, s, o).Some?
    ensures |Decode(v, img, s, o).value| == |f.data| && Delivers(f.data, 0, Decode(v, img, s, o).value)
  {
    hide FileSectors;
    hide Table;
    hide Sound;
    hide LdClust;
    hide LdSize;
    VolumeBounds(v);
    var n := FT.ClustersFor(v, f.objsize);
    EnoughChain(v, f.objsize, |f.chain|);
    if f.chain != [] {
      FollowChain(Table(v, img), f.chain, n);
    }
    var cs := f.chain[..n];
    SectorsPrefix(v, cs, f.chain);
    forall i | 0 <= i < |f.data|
      ensures Agrees(f.data[i], ByteAt(v, img, cs, i))
    {
      WithinClusters(v, f.objsize, i);
    }
  }

  /** A chain that holds the bytes has the clusters they need. */
  lemma EnoughChain(v: Volume, size: nat, len: nat)
    requires v.csize > 0 && size <= SS * (len * v.csize)
    ensures FT.ClustersFor(v, size) <= len
  {
    FT.ClustersForIsCeiling(v, size);
    assert SS * v.csize * len == SS * (len * v.csize);
    if len < FT.ClustersFor(v, size) {
      MulMono(SS * v.csize, len, FT.ClustersFor(v, size) - 1);
    }
  }

  lemma WithinClusters(v: Volume, size: nat, i: nat)
    requires v.csize > 0 && i < size
    ensures i / SS < FT.ClustersFor(v, size) * v.csize
  {
    DivModFacts(i, SS);
    DivModFacts(size - 1, SS);
    DivModFacts((size - 1) / SS, v.csize);
    var q := (size - 1) / SS / v.csize;
    assert i / SS <= (size - 1) / SS;
    assert v.csize * (q + 1) == v.csize * q + v.csize;
  }

  /** When the content is specified throughout, the bytes read back are exactly the content. */
  lemma DecodesExactly(v: Volume, img: Image, s: nat, o: nat, f: FileView, bytes: seq<Byte>)
    requires Recorded(v, img, s, o, f)
    requires |bytes| == |f.data| && forall i :: 0 <= i < |bytes| ==> f.data[i] == Some(bytes[i])
    ensures Decode(v, img, s, o) == Some(bytes)
  {
    hide Decode;
    hide Kept;
    hide FileSectors;
    hide Table;
    hide Sound;
    RecordedDecodes(v, img, s, o, f);
    ExactBytes(f.data, Decode(v, img, s, o).value, bytes);
  }

  lemma ExactBytes(data: Content, out: seq<Byte>, bytes: seq<Byte>)
    requires |out| == |bytes| == |data| && Delivers(data, 0, out)
    requires forall i :: 0 <= i < |bytes| ==> data[i] == Some(bytes[i])
    ensures out == bytes
  {
    forall i | 0 <= i < |bytes|
      ensures out[i] == bytes[i]
    {
      assert Agrees(data[0 + i], out[i]);
    }
  }

  /** The directory entry lies in the root directory region, or in a cluster in use, and not in the file itself. */
  ghost predicate DirAt(v: Volume, t: seq<nat>, dirClust: nat, s: nat, o: nat, chain: seq<nat>)
    requires |t| == v.nFatent
  {
    && o + SZDIRE <= SS
    && (if dirClust == 0 then v.fsType != FAT32 && v.dirbase <= s < v.database
        else 2 <= dirClust < |t| && InCluster(v, dirClust, s) && t[dirClust] != 0)
    && dirClust !in chain
  }

  /** The entry's sector is none of the FAT's, nor FSInfo, nor one of the file's. */
  lemma DirClear(v: Volume, img: Image, f: FileView, ws: nat, dirClust: nat, s: nat, o: nat)
    requires Fits(v, img) && Core(v, img, ws, f) && DirAt(v, Table(v, img), dirClust, s, o, f.chain)
    ensures s < |img| && !InFat1(v, s) && !InFat2(v, s) && !IsInfo(v, s) && s !in FileSectors(v, f.chain)
  {
    hide Table;
    hide FileSectors;
    if dirClust != 0 {
      ClusterInData(v, dirClust, s);
      forall q | 0 <= q < |f.chain| * v.csize
        ensures FileSectors(v, f.chain)[q] != s
      {
        SectorInCluster(v, f.chain, q);
        if FileSectors(v, f.chain)[q] == s {
          ClustersDisjoint(v, dirClust, f.chain[q / v.csize], s);
        }
      }
    } else {
      FatFits(v, img);
      FileSectorsSound(v, img, f.sclust, f.chain);
    }
  }
}
