/** The geometry of a mounted FAT volume and what find_volume must guarantee about it. */
module Layout {
  import opened Bytes
  import opened FatCodec
  import opened Arith

  /** The FATFS members that find_volume sets once and nothing changes afterwards. */
  datatype Volume = Volume(
    fsType: FatType,
    nFats: nat,      // 1 or 2
    csize: nat,      // sectors per cluster
    nRootdir: nat,   // entries in a static root directory
    nFatent: nat,    // clusters + 2
    fsize: nat,      // sectors per FAT
    volbase: nat,
    fatbase: nat,
    dirbase: nat,    // root directory: first sector (FAT12/16) or first cluster (FAT32)
    database: nat)

  const MAX_FAT12 := 0xFF5
  const MAX_FAT16 := 0xFFF5
  const MAX_FAT32 := 0x0FFF_FFF5

  /** The end-of-chain value every caller passes to put_fat. */
  const EOC := 0xFFFF_FFFF

  /** The value that ends a chain, as the entry of each width holds it. */
  predicate EndsChain(t: FatType, e: nat)
  {
    match t
    case FAT12 => e == 0xFFF
    case FAT16 => e == 0xFFFF
    case FAT32 => e == 0x0FFF_FFFF
  }

  function MaxClusters(t: FatType): nat
  {
    match t
    case FAT12 => MAX_FAT12
    case FAT16 => MAX_FAT16
    case FAT32 => MAX_FAT32
  }

  predicate IsPow2(c: nat)
  {
    c == 1 || (c > 0 && c % 2 == 0 && IsPow2(c / 2))
  }

  /** Bitwise and of two naturals. */
  function And(a: nat, b: nat): nat
    decreases a
  {
    if a == 0 || b == 0 then 0 else (a % 2) * (b % 2) + 2 * And(a / 2, b / 2)
  }

  lemma AndSelf(a: nat)
    ensures And(a, a) == a
  {
  }

  /** `c & (c - 1)` is zero exactly for the powers of two. */
  lemma {:induction false} PowerOfTwoTest(c: nat)
    requires c > 0
    ensures And(c, c - 1) == 0 <==> IsPow2(c)
  {
    if c % 2 == 1 {
      assert (c - 1) / 2 == c / 2;
      AndSelf(c / 2);
    } else {
      assert (c - 1) / 2 == c / 2 - 1;
      PowerOfTwoTest(c / 2);
    }
  }

  /** Masking with a power of two less one is the remainder. */
  lemma {:induction false} MaskIsRemainder(x: nat, c: nat)
    requires IsPow2(c)
    ensures And(x, c - 1) == x % c
  {
    if c != 1 {
      var h := c / 2;
      MaskIsRemainder(x / 2, h);
      AndStep(x, h);
      DivDiv(x, 2, h);
    }
  }

  /** One bit of `x & (2 * h - 1)`. */
  lemma AndStep(x: nat, h: nat)
    requires h > 0
    ensures And(x, 2 * h - 1) == x % 2 + 2 * And(x / 2, h - 1)
  {
    assert (2 * h - 1) / 2 == h - 1 && (2 * h - 1) % 2 == 1;
  }

  /** Cluster sizes in bytes are powers of two as well. */
  lemma ClusterBytesPow2(c: nat)
    requires IsPow2(c)
    ensures IsPow2(SS * c)
  {
    hide IsPow2;
    Pow2Times8(c);
    Pow2Times8(8 * c);
    Pow2Times8(64 * c);
  }

  lemma Pow2Double(c: nat)
    requires IsPow2(c)
    ensures IsPow2(2 * c)
  {
  }

  lemma Pow2Times8(c: nat)
    requires IsPow2(c)
    ensures IsPow2(8 * c)
  {
    hide IsPow2;
    Pow2Double(c);
    Pow2Double(2 * c);
    Pow2Double(4 * c);
  }

  /** First sector of cluster `c` (clst2sect on a valid cluster). */
  function ClusterSector(v: Volume, c: int): int
  {
    v.database + v.csize * (c - 2)
  }

  predicate InCluster(v: Volume, c: int, s: int)
  {
    ClusterSector(v, c) <= s < ClusterSector(v, c) + v.csize
  }

  predicate InFat1(v: Volume, s: int)
  {
    v.fatbase <= s < v.fatbase + v.fsize
  }

  predicate InFat2(v: Volume, s: int)
  {
    v.nFats == 2 && v.fatbase + v.fsize <= s < v.fatbase + 2 * v.fsize
  }

  /** The FSInfo sector, when it lies in the reserved area. */
  predicate IsInfo(v: Volume, s: int)
  {
    s == v.volbase + 1 && s < v.fatbase
  }

  /** One past the last sector of the last cluster. */
  function End(v: Volume): int
  {
    ClusterSector(v, v.nFatent)
  }

  /** What the rest of FatFs relies on about a mounted volume. */
  predicate Sound(v: Volume)
  {
    && (v.nFats == 1 || v.nFats == 2)
    && 1 <= v.csize <= 128 && IsPow2(v.csize)
    && 3 <= v.nFatent <= MaxClusters(v.fsType) + 2
    && v.nRootdir % 16 == 0
    && v.volbase < v.fatbase
    && (if v.fsType == FAT32 then v.nRootdir == 0 && v.fatbase + v.nFats * v.fsize == v.database
        else v.dirbase == v.fatbase + v.nFats * v.fsize && v.nRootdir > 0 && v.dirbase + v.nRootdir / 16 == v.database)
    && Offset(v.fsType, v.nFatent - 1) + Width(v.fsType) <= SS * v.fsize
    && End(v) < TWO32
  }

  /** Every FAT entry lies inside the first FAT. */
  lemma EntryInFat(v: Volume, c: nat)
    requires Sound(v) && c < v.nFatent
    ensures Offset(v.fsType, c) + Width(v.fsType) <= SS * v.fsize
  {
  }

  /** An end-of-chain mark reads back as no next cluster in every FAT width. */
  lemma EocReadsBack(v: Volume)
    requires Sound(v)
    ensures EOC % Modulus(v.fsType) >= v.nFatent && EndsChain(v.fsType, EOC % Modulus(v.fsType))
  {
  }

  /** A cluster's sectors lie inside the data area. */
  lemma ClusterInData(v: Volume, c: int, s: int)
    requires Sound(v) && 2 <= c < v.nFatent && InCluster(v, c, s)
    ensures v.database <= s < End(v)
    ensures !InFat1(v, s) && !InFat2(v, s) && !IsInfo(v, s)
  {
    MulMono(v.csize, 0, c - 2);
    MulStep(v.csize, c - 2, v.nFatent - 2);
  }

  /** Two different clusters share no sector. */
  lemma ClustersDisjoint(v: Volume, c: int, d: int, s: int)
    requires Sound(v) && InCluster(v, c, s) && InCluster(v, d, s)
    ensures c == d
  {
    if c > d {
      MulStep(v.csize, d - 2, c - 2);
    } else if c < d {
      MulStep(v.csize, c - 2, d - 2);
    }
  }
}
