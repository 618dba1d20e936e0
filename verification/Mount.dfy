/** find_volume on a FAT boot sector: which geometries it accepts, and what they are worth. */
module Mount {
  import opened Arith
  import opened Bytes
  import opened FatCodec
  import opened Layout
  import opened Disk
  import opened Window
  import opened DirEntry

  const BPB_BytsPerSec := 11
  const BPB_SecPerClus := 13
  const BPB_RsvdSecCnt := 14
  const BPB_NumFATs := 16
  const BPB_RootEntCnt := 17
  const BPB_TotSec16 := 19
  const BPB_FATSz16 := 22
  const BPB_TotSec32 := 32
  const BPB_FATSz32 := 36
  const BPB_FSVer32 := 42
  const BPB_RootClus32 := 44
  const BPB_FSInfo32 := 48

  /** A field stored in 16 bits, or in 32 when those are zero. */
  function Wide(w: Sector, at16: nat, at32: nat): nat
    requires at16 + 2 <= SS && at32 + 4 <= SS
  {
    if LdWord(w, at16) != 0 then LdWord(w, at16) else LdDword(w, at32)
  }

  /** The fields of a boot sector that matter. */
  datatype Bpb = Bpb(bytsPerSec: nat, secPerClus: nat, rsvdSecCnt: nat, numFats: nat, rootEntCnt: nat, totSec: nat,
                     fatSz: nat, fsVer: nat, rootClus: nat)

  function Fields(w: Sector): Bpb
  {
    Bpb(LdWord(w, BPB_BytsPerSec), w[BPB_SecPerClus], LdWord(w, BPB_RsvdSecCnt), w[BPB_NumFATs],
        LdWord(w, BPB_RootEntCnt), Wide(w, BPB_TotSec16, BPB_TotSec32), Wide(w, BPB_FATSz16, BPB_FATSz32),
        LdWord(w, BPB_FSVer32), LdDword(w, BPB_RootClus32))
  }

  /** The FAT type is a matter of the cluster count alone. */
  function TypeOf(clusters: nat): FatType
  {
    if clusters <= MAX_FAT12 then FAT12 else if clusters <= MAX_FAT16 then FAT16 else FAT32
  }

  /** The boot sector of a volume of this geometry starting at `bsect`. */
  ghost predicate Describes(b: Bpb, bsect: nat, x: Volume)
  {
    && b.bytsPerSec == SS
    && x.fsize == b.fatSz && x.nFats == b.numFats && x.csize == b.secPerClus && x.nRootdir == b.rootEntCnt
    && x.volbase == bsect && x.fatbase == bsect + b.rsvdSecCnt
    && End(x) <= bsect + b.totSec < End(x) + x.csize
    && x.nFatent >= 3 && x.fsType == TypeOf(x.nFatent - 2)
    && (x.fsType == FAT32 ==> b.fsVer == 0 && x.dirbase == b.rootClus)
  }

  /** Little-endian numbers of two and of four bytes. */
  function Two(w: Sector, i: nat): nat
    requires i + 2 <= 512
  {
    w[i] + 0x100 * w[i + 1] as int
  }

  function Four(w: Sector, i: nat): nat
    requires i + 4 <= 512
  {
    w[i] + 0x100 * w[i + 1] as int + 0x1_0000 * w[i + 2] as int + 0x100_0000 * w[i + 3] as int
  }

  /** Where the fields are in the sector. */
  lemma FieldPlaces(w: Sector)
    ensures Fields(w) ==
      Bpb(Two(w, 11), w[13], Two(w, 14), w[16], Two(w, 17),
          if Two(w, 19) != 0 then Two(w, 19) else Four(w, 32),
          if Two(w, 22) != 0 then Two(w, 22) else Four(w, 36),
          Two(w, 42), Four(w, 44))
    ensures LdWord(w, BPB_FSInfo32) == 1 <==> w[48] == 1 && w[49] == 0
  {
    assert forall i :: 0 <= i && i + 2 <= 512 ==> Two(w, i) == LdWord(w, i);
    assert forall i :: 0 <= i && i + 4 <= 512 ==> Four(w, i) == LdDword(w, i);
  }

  /** The cluster counts at which the type changes. */
  lemma TypeByCount(n: nat)
    ensures TypeOf(n) == FAT12 <==> n <= 4085
    ensures TypeOf(n) == FAT16 <==> 4086 <= n <= 65525
    ensures TypeOf(n) == FAT32 <==> 65526 <= n
  {
  }

  /** Sectors before the data area. */
  function SystemArea(b: Bpb): nat
  {
    b.rsvdSecCnt + b.numFats * b.fatSz + b.rootEntCnt / 16
  }

  /** The system area fits the volume, and the sector numbers up to the last whole cluster fit 32 bits. */
  predicate NoWrap(b: Bpb, bsect: nat)
  {
    && b.secPerClus > 0 && SystemArea(b) <= b.totSec
    && bsect + b.totSec - (b.totSec - SystemArea(b)) % b.secPerClus < TWO32
  }

  /** Entries of the FAT: bytes needed, as find_volume computes them. */
  function FatBytesNeeded(t: FatType, n: nat): nat
  {
    match t
    case FAT12 => n * 3 / 2 + n % 2
    case FAT16 => n * 2
    case FAT32 => n * 4
  }

  lemma LastEntryEnds(t: FatType, n: nat)
    requires n > 0
    ensures Offset(t, n - 1) + Width(t) == FatBytesNeeded(t, n)
  {
    if t == FAT12 {
      var m := n / 2;
      if n % 2 == 0 {
        assert n == 2 * m && n * 3 / 2 == 3 * m && (n - 1) / 2 == m - 1;
      } else {
        assert n == 2 * m + 1 && n * 3 / 2 == 3 * m + 1 && (n - 1) / 2 == m;
      }
    }
  }

  /** Whole clusters after the system area. */
  function Clusters(b: Bpb): nat
    requires b.secPerClus > 0 && SystemArea(b) <= b.totSec
  {
    WholeClusters(b.totSec - SystemArea(b), b.secPerClus)
  }

  function WholeClusters(sectors: nat, csize: nat): nat
    requires csize > 0
  {
    sectors / csize
  }

  /** The fields are those of a FAT volume, and its FAT is large enough for its clusters. */
  predicate Fine(b: Bpb)
    requires b.secPerClus > 0 && SystemArea(b) <= b.totSec
  {
    && b.bytsPerSec == SS
    && (b.numFats == 1 || b.numFats == 2)
    && b.secPerClus <= 128 && IsPow2(b.secPerClus)
    && b.rootEntCnt % 16 == 0
    && b.rsvdSecCnt > 0
    && Suits(b, Clusters(b))
  }

  /** The geometry those fields mean. */
  function Geometry(b: Bpb, bsect: nat): Volume
    requires b.secPerClus > 0 && SystemArea(b) <= b.totSec
  {
    var t, fatbase := TypeOf(Clusters(b)), bsect + b.rsvdSecCnt;
    Volume(t, b.numFats, b.secPerClus, b.rootEntCnt, Clusters(b) + 2, b.fatSz, bsect, fatbase,
           if t == FAT32 then b.rootClus else fatbase + b.numFats * b.fatSz, bsect + SystemArea(b))
  }

  /** A fine boot sector without overflow describes a sound volume. */
  lemma FineIsSound(b: Bpb, bsect: nat)
    requires NoWrap(b, bsect) && Fine(b)
    ensures Sound(Geometry(b, bsect)) && Describes(b, bsect, Geometry(b, bsect))
  {
    var x, c, rest := Geometry(b, bsect), b.secPerClus, b.totSec - SystemArea(b);
    DivModFacts(rest, c);
    LastEntryEnds(x.fsType, x.nFatent);
    assert End(x) == x.database + c * Clusters(b);
  }

  /** Every sound volume a boot sector describes is the one its fields mean, and it involves no overflow. */
  lemma SoundIsFine(b: Bpb, bsect: nat, x: Volume)
    requires Sound(x) && Describes(b, bsect, x)
    ensures NoWrap(b, bsect) && Fine(b) && x == Geometry(b, bsect)
  {
    hide IsPow2;
    var c, rest := x.csize, b.totSec - SystemArea(b);
    assert x.database == bsect + SystemArea(b);
    ClusterCount(x, rest);
    LastEntryEnds(x.fsType, x.nFatent);
  }

  /** The cluster count is the quotient of the data sectors by the cluster size. */
  lemma ClusterCount(x: Volume, rest: int)
    requires x.csize > 0 && End(x) <= x.database + rest < End(x) + x.csize && x.nFatent >= 2
    ensures rest >= 0 && WholeClusters(rest, x.csize) == x.nFatent - 2
    ensures x.database + rest - rest % x.csize == End(x)
  {
    MulMono(x.csize, 0, x.nFatent - 2);
    DivModUnique(rest, x.csize, x.nFatent - 2, rest - x.csize * (x.nFatent - 2));
  }

  /** Unsigned 32-bit product. */
  function Mul32(a: nat, b: nat): (r: nat)
    ensures r < TWO32
  {
    a * b % TWO32
  }

  /** The system area as find_volume sums it. */
  function Area32(b: Bpb, fasize: nat): (r: nat)
    ensures r < TWO32
  {
    (b.rsvdSecCnt + fasize + b.rootEntCnt / 16) % TWO32
  }

  /** What the FAT branch of find_volume checks, its 32-bit sums wrapping around. */
  predicate Accepts(b: Bpb)
  {
    && b.bytsPerSec == SS
    && (b.numFats == 1 || b.numFats == 2)
    && b.secPerClus > 0 && IsPow2(b.secPerClus)
    && b.rootEntCnt % 16 == 0
    && b.rsvdSecCnt > 0
    && Area32(b, Mul32(b.fatSz, b.numFats)) <= b.totSec
    && Suits(b, WholeClusters(b.totSec - Area32(b, Mul32(b.fatSz, b.numFats)), b.secPerClus))
  }

  /** The fields suit a volume of `n` clusters. */
  predicate Suits(b: Bpb, n: nat)
  {
    && 1 <= n <= MAX_FAT32
    && (if TypeOf(n) == FAT32 then b.fsVer == 0 && b.rootEntCnt == 0 else b.rootEntCnt > 0)
    && FatBytesNeeded(TypeOf(n), n + 2) <= SS * b.fatSz
  }

  /** What the C types bound. */
  predicate Sized(b: Bpb)
  {
    b.secPerClus < 0x100 && b.numFats < 0x100 && b.rsvdSecCnt < 0x1_0000 && b.rootEntCnt < 0x1_0000 && b.totSec < TWO32
      && b.fatSz < TWO32
  }

  lemma FieldsSized(w: Sector)
    ensures Sized(Fields(w))
  {
  }

  /** Without overflow the wrapped sums are the sums. */
  lemma Unwrapped(b: Bpb, bsect: nat)
    requires NoWrap(b, bsect) && Sized(b)
    ensures b.secPerClus > 0 && SystemArea(b) <= b.totSec && bsect + SystemArea(b) < TWO32
    ensures Mul32(b.fatSz, b.numFats) == b.numFats * b.fatSz
    ensures Area32(b, Mul32(b.fatSz, b.numFats)) == SystemArea(b)
    ensures 0 <= b.numFats * b.fatSz && bsect + b.rsvdSecCnt + b.numFats * b.fatSz < TWO32
  {
    MulMono(b.numFats, 0, b.fatSz);
    RestIsPart(b.totSec - SystemArea(b), b.secPerClus);
    Small(b.numFats * b.fatSz);
    Small(SystemArea(b));
  }

  lemma RestIsPart(x: nat, c: nat)
    requires c > 0
    ensures 0 <= x % c <= x
  {
    DivModFacts(x, c);
    MulMono(c, 0, x / c);
  }

  lemma Small(x: nat)
    ensures x < TWO32 ==> x % TWO32 == x
  {
  }

  /** Sums of which none wraps, given that they fit together. */
  lemma SumsFit(bsect: nat, rsvd: nat, p: nat, q: nat, fatbase: nat, area: nat, database: nat)
    requires area == (rsvd + p % TWO32 + q) % TWO32 && fatbase == (bsect + rsvd) % TWO32
      && database == (bsect + area) % TWO32
    requires fatbase + p + q == database && bsect < fatbase && bsect < TWO32 && rsvd < 0x1_0000
    ensures area == rsvd + p + q && database == bsect + area
  {
  }

  /** A geometry computed with a wrapped sum is not sound. */
  lemma WrappedIsUnsound(b: Bpb, bsect: nat, x: Volume)
    requires !NoWrap(b, bsect) && Sized(b) && b.secPerClus > 0 && bsect < TWO32
    requires var area := Area32(b, Mul32(b.fatSz, b.numFats));
             && area <= b.totSec && x.nFatent == WholeClusters(b.totSec - area, b.secPerClus) + 2
             && x.database == (bsect + area) % TWO32
    requires x.fatbase == (bsect + b.rsvdSecCnt) % TWO32 && x.volbase == bsect
    requires x.nFats == b.numFats && x.fsize == b.fatSz && x.csize == b.secPerClus && x.nRootdir == b.rootEntCnt
    ensures !Sound(x)
  {
    hide IsPow2;
    var area, p := Area32(b, Mul32(b.fatSz, b.numFats)), b.numFats * b.fatSz;
    MulMono(b.numFats, 0, b.fatSz);
    if Sound(x) {
      SumsFit(bsect, b.rsvdSecCnt, p, b.rootEntCnt / 16, x.fatbase, area, x.database);
      DivModFacts(b.totSec - area, x.csize);
    }
  }

  /** A power of two in a byte is at most 128. */
  lemma SmallPower(c: nat)
    requires IsPow2(c) && c < 256
    ensures c <= 128
  {
    if c > 128 {
      PowerStep(c);
      PowerStep(c / 2);
      PowerStep(c / 2 / 2);
      PowerStep(c / 2 / 2 / 2);
      PowerStep(c / 2 / 2 / 2 / 2);
      PowerStep(c / 2 / 2 / 2 / 2 / 2);
      PowerStep(c / 2 / 2 / 2 / 2 / 2 / 2);
    }
  }

  lemma PowerStep(c: nat)
    requires IsPow2(c) && c > 1
    ensures IsPow2(c / 2) && c % 2 == 0
  {
  }

  /** The part of find_volume below the determination of the FAT sub-type. */
  method Boundaries(b: Bpb, bsect: nat, fasize: nat, sysect: nat, nclst: nat) returns (r: Option<Volume>)
    requires Sized(b) && b.secPerClus > 0 && bsect < TWO32 && 1 <= nclst <= MAX_FAT32 && fasize < TWO32
      && sysect < TWO32
    ensures r.Some? ==>
      && r.value.nFats == b.numFats && r.value.fsize == b.fatSz && r.value.csize == b.secPerClus
         && r.value.nRootdir == b.rootEntCnt
      && r.value.volbase == bsect && r.value.fatbase == (bsect + b.rsvdSecCnt) % TWO32
      && r.value.database == (bsect + sysect) % TWO32 && r.value.nFatent == nclst + 2
      && r.value.fsType == TypeOf(nclst)
      && r.value.dirbase == if TypeOf(nclst) == FAT32 then b.rootClus else (r.value.fatbase + fasize) % TWO32
    ensures r.Some? <==>
      && (if TypeOf(nclst) == FAT32 then b.fsVer == 0 && b.rootEntCnt == 0 else b.rootEntCnt > 0)
      && FatBytesNeeded(TypeOf(nclst), nclst + 2) <= SS * b.fatSz
  {
    var fmt := FAT32;
    if nclst <= MAX_FAT16 { fmt := FAT16; }
    if nclst <= MAX_FAT12 { fmt := FAT12; }
    var nFatent := nclst + 2;
    var fatbase := (bsect + b.rsvdSecCnt) % TWO32;
    var database := (bsect + sysect) % TWO32;
    var dirbase, szbfat;
    if fmt == FAT32 {
      if b.fsVer != 0 { return None; }
      if b.rootEntCnt != 0 { return None; }
      dirbase := b.rootClus;
      szbfat := nFatent * 4;
    } else {
      if b.rootEntCnt == 0 { return None; }
      dirbase := (fatbase + fasize) % TWO32;
      szbfat := if fmt == FAT16 then nFatent * 2 else nFatent * 3 / 2 + nFatent % 2;
    }
    if b.fatSz < (szbfat + (SS - 1)) / SS { return None; }
    r := Some(Volume(fmt, b.numFats, b.secPerClus, b.rootEntCnt, nFatent, b.fatSz, bsect, fatbase, dirbase, database));
  }

  /** What find_volume computes without overflow is the geometry the fields mean. */
  lemma Settled(b: Bpb, bsect: nat, x: Volume)
    requires NoWrap(b, bsect) && Sized(b)
    requires b.secPerClus > 0 && SystemArea(b) <= b.totSec && x.nFatent == Clusters(b) + 2
      && x.fsType == TypeOf(Clusters(b))
    requires x.nFats == b.numFats && x.fsize == b.fatSz && x.csize == b.secPerClus && x.nRootdir == b.rootEntCnt
    requires x.volbase == bsect && x.fatbase == (bsect + b.rsvdSecCnt) % TWO32
      && x.database == (bsect + SystemArea(b)) % TWO32
    requires x.dirbase == if x.fsType == FAT32 then b.rootClus else (x.fatbase + Mul32(b.fatSz, b.numFats)) % TWO32
    ensures x == Geometry(b, bsect)
  {
    hide Mul32;
    hide SystemArea;
    hide Clusters;
    hide NoWrap;
    hide TypeOf;
    Unwrapped(b, bsect);
    Small(bsect + b.rsvdSecCnt);
    Small(bsect + SystemArea(b));
    Small(x.fatbase + Mul32(b.fatSz, b.numFats));
  }

  /** Without overflow the checks accept the boot sectors of sound volumes only. */
  lemma AcceptsFine(b: Bpb, bsect: nat)
    requires NoWrap(b, bsect) && Sized(b)
    ensures Accepts(b) <==> Fine(b)
  {
    hide NoWrap;
    hide Mul32;
    hide SystemArea;
    hide Area32;
    hide Suits;
    hide IsPow2;
    Unwrapped(b, bsect);
    if IsPow2(b.secPerClus) {
      SmallPower(b.secPerClus);
    }
  }

  /** With overflow they accept others: here the two FATs, of 2^31 sectors each, count as none. */
  lemma WrappedExample()
    ensures var b := Bpb(512, 1, 1, 2, 16, 5000, 0x8000_0000, 0, 0);
            Fields(BootSector(b, 0)) == b && Accepts(b) && !NoWrap(b, 0)
  {
    hide Fields;
    hide BootSector;
    var b := Bpb(512, 1, 1, 2, 16, 5000, 0x8000_0000, 0, 0);
    BootSectorReads(b, 0);
    assert Mul32(0x8000_0000, 2) == 0 && Area32(b, 0) == 2;
    DivModUnique(4998, 1, 4998, 0);
  }

  /** Byte `k` of a little-endian number. */
  function Digit(x: nat, k: nat): Byte
  {
    (if k == 0 then x else if k == 1 then x / 0x100 else if k == 2 then x / 0x1_0000 else x / 0x100_0000) % 0x100
  }

  lemma TwoDigits(x: nat)
    requires x < 0x1_0000
    ensures Digit(x, 0) + 0x100 * Digit(x, 1) == x
  {
  }

  lemma FourDigits(x: nat)
    requires x < TWO32
    ensures Digit(x, 0) + 0x100 * Digit(x, 1) + 0x1_0000 * (Digit(x, 2) + 0x100 * Digit(x, 3)) == x
  {
    var hi, lo := x / 0x1_0000, x % 0x1_0000;
    DivModFacts(x, 0x1_0000);
    DivDiv(x, 0x1_0000, 0x100);
    DivDiv(x, 0x100, 0x100);
    TwoDigits(hi);
    assert x / 0x100 % 0x100 == lo / 0x100;
    assert x % 0x100 == lo % 0x100;
    TwoDigits(lo);
  }

  /** Byte `i` of a boot sector with these fields, the sizes in their 32-bit places, and BPB_FSInfo32. */
  function BootByte(b: Bpb, info: nat, i: nat): Byte
  {
    if i < BPB_SecPerClus then (if i < BPB_BytsPerSec then 0 else Digit(b.bytsPerSec, i - BPB_BytsPerSec))
    else if i < BPB_RsvdSecCnt then b.secPerClus % 0x100
    else if i < BPB_NumFATs then Digit(b.rsvdSecCnt, i - BPB_RsvdSecCnt)
    else if i < BPB_RootEntCnt then b.numFats % 0x100
    else if i < BPB_TotSec16 then Digit(b.rootEntCnt, i - BPB_RootEntCnt)
    else if i < BPB_TotSec32 then 0
    else if i < BPB_FATSz32 then Digit(b.totSec, i - BPB_TotSec32)
    else if i < BPB_FATSz32 + 4 then Digit(b.fatSz, i - BPB_FATSz32)
    else if i < BPB_FSVer32 then 0
    else if i < BPB_RootClus32 then Digit(b.fsVer, i - BPB_FSVer32)
    else if i < BPB_FSInfo32 then Digit(b.rootClus, i - BPB_RootClus32)
    else if i < BPB_FSInfo32 + 2 then Digit(info, i - BPB_FSInfo32)
    else 0
  }

  function BootSector(b: Bpb, info: nat): Sector
  {
    seq(SS, i requires 0 <= i < SS => BootByte(b, info, i))
  }

  /** Such a boot sector reads back. */
  lemma BootSectorReads(b: Bpb, info: nat)
    requires Sized(b) && b.bytsPerSec < 0x1_0000 && b.fsVer < 0x1_0000 && b.rootClus < TWO32 && info < 0x1_0000
    ensures Fields(BootSector(b, info)) == b && LdWord(BootSector(b, info), BPB_FSInfo32) == info
  {
    hide Digit;
    TwoDigits(b.bytsPerSec);
    TwoDigits(b.rsvdSecCnt);
    TwoDigits(b.rootEntCnt);
    TwoDigits(b.fsVer);
    TwoDigits(info);
    FourDigits(b.totSec);
    FourDigits(b.fatSz);
    FourDigits(b.rootClus);
  }

  /** The FAT branch of find_volume; 32-bit sums wrap around. What it accepts is sound exactly when no sum wraps. */
  method ReadGeometry(w: Sector, bsect: nat) returns (r: Option<Volume>)
    requires bsect < TWO32
    ensures r.Some? <==> Accepts(Fields(w))
    ensures NoWrap(Fields(w), bsect) ==> r == if Fine(Fields(w)) then Some(Geometry(Fields(w), bsect)) else None
    ensures r.Some? && !NoWrap(Fields(w), bsect) ==> !Sound(r.value)
    ensures r.Some? ==> r.value.volbase == bsect
  {
    hide LdWord;
    hide LdDword;
    hide IsPow2;
    hide And;
    hide Sound;
    hide Mul32;
    hide SystemArea;
    hide NoWrap;
    hide WholeClusters;
    hide Geometry;
    hide Area32;
    hide Sized;
    hide Fields;
    hide TypeOf;
    hide FatBytesNeeded;
    hide Fine;
    var b := Fields(w);
    FieldsSized(w);
    if NoWrap(b, bsect) {
      Unwrapped(b, bsect);
      AcceptsFine(b, bsect);
    }
    if b.bytsPerSec != SS { return None; }
    if b.numFats != 1 && b.numFats != 2 { return None; }
    var fasize := Mul32(b.fatSz, b.numFats);
    if b.secPerClus > 0 {
      PowerOfTwoTest(b.secPerClus);
    }
    if b.secPerClus == 0 || And(b.secPerClus, b.secPerClus - 1) != 0 { return None; }
    SmallPower(b.secPerClus);
    if b.rootEntCnt % (SS / 32) != 0 { return None; }
    if b.rsvdSecCnt == 0 { return None; }
    var sysect := Area32(b, fasize);
    if b.totSec < sysect { return None; }
    var nclst := WholeClusters(b.totSec - sysect, b.secPerClus);
    if nclst == 0 { return None; }
    if nclst > MAX_FAT32 { return None; }
    r := Boundaries(b, bsect, fasize, sysect, nclst);
    if r.Some? {
      if NoWrap(b, bsect) {
        Settled(b, bsect, r.value);
      } else {
        WrappedIsUnsound(b, bsect, r.value);
      }
    }
  }

  /** A floppy of 2880 sectors, with 224 root entries and two FATs of 9 sectors. */
  lemma FloppyBoot(w: Sector, bsect: nat)
    requires bsect < TWO32 - 2880 && w[11] == 0 && w[12] == 2 && w[13] == 1 && w[14] == 1 && w[15] == 0 && w[16] == 2
    requires w[17] == 224 && w[18] == 0 && w[19] == 0x40 && w[20] == 0x0B && w[22] == 9 && w[23] == 0
    ensures NoWrap(Fields(w), bsect) && Fine(Fields(w))
    ensures Geometry(Fields(w), bsect) == Volume(FAT12, 2, 1, 224, 2849, 9, bsect, bsect + 1, bsect + 19, bsect + 33)
  {
    hide Fields;
    FieldPlaces(w);
    DivModUnique(2880 - 33, 1, 2847, 0);
  }

  /** A FAT16 volume of 20480 sectors in clusters of four. */
  lemma Fat16Boot(w: Sector, bsect: nat)
    requires bsect < TWO32 - 0x5000 && w[11] == 0 && w[12] == 2 && w[13] == 4 && w[14] == 1 && w[15] == 0 && w[16] == 2
    requires w[17] == 0 && w[18] == 2 && w[19] == 0 && w[20] == 0x50 && w[22] == 20 && w[23] == 0
    ensures NoWrap(Fields(w), bsect) && Fine(Fields(w))
    ensures Geometry(Fields(w), bsect) == Volume(FAT16, 2, 4, 512, 5103, 20, bsect, bsect + 1, bsect + 41, bsect + 73)
  {
    hide Fields;
    FieldPlaces(w);
    DivModUnique(0x5000 - 73, 4, 5101, 3);
  }

  /** A FAT32 volume of 2^20 sectors in clusters of eight, its root directory in cluster 2. */
  lemma Fat32Boot(w: Sector, bsect: nat)
    requires bsect < TWO32 - 0x10_0000
    requires w[11] == 0 && w[12] == 2 && w[13] == 8 && w[14] == 32 && w[15] == 0 && w[16] == 2
    requires w[17] == 0 && w[18] == 0 && w[19] == 0 && w[20] == 0 && w[22] == 0 && w[23] == 0
    requires w[32] == 0 && w[33] == 0 && w[34] == 0x10 && w[35] == 0 && w[36] == 0 && w[37] == 4 && w[38] == 0
    requires w[39] == 0 && w[42] == 0 && w[43] == 0 && w[44] == 2 && w[45] == 0 && w[46] == 0 && w[47] == 0
    ensures NoWrap(Fields(w), bsect) && Fine(Fields(w))
    ensures Geometry(Fields(w), bsect) == Volume(FAT32, 2, 8, 0, 130814, 1024, bsect, bsect + 32, 2, bsect + 2080)
  {
    hide Fields;
    FieldPlaces(w);
    DivModUnique(0x10_0000 - 2080, 8, 130812, 0);
  }

  /** sync_fs overwrites sector 1 of a FAT32 volume: that is a FAT sector exactly when only one sector is reserved. */
  lemma InfoInFat(b: Bpb, bsect: nat)
    requires NoWrap(b, bsect) && Fine(b)
    ensures InFat1(Geometry(b, bsect), bsect + 1) <==> b.rsvdSecCnt == 1
    ensures IsInfo(Geometry(b, bsect), bsect + 1) <==> b.rsvdSecCnt != 1
  {
    hide Clusters;
    hide IsPow2;
    assert b.fatSz > 0;
  }

  /** The FSInfo sector, if it is used, lies before the FAT. */
  predicate InfoClear(w: Sector)
  {
    w[48] == 1 && w[49] == 0 ==> Two(w, 14) >= 2
  }

  /** A FAT32 boot sector with one reserved sector that uses FSInfo passes every check. */
  lemma InfoInFatExample()
    ensures var b := Bpb(512, 1, 1, 1, 0, 70_000, 600, 0, 2);
            && Fields(BootSector(b, 1)) == b && NoWrap(b, 0) && Fine(b) && Geometry(b, 0).fsType == FAT32
            && LdWord(BootSector(b, 1), BPB_FSInfo32) == 1 && !InfoClear(BootSector(b, 1))
  {
    hide BootSector;
    hide Fields;
    var b := Bpb(512, 1, 1, 1, 0, 70_000, 600, 0, 2);
    BootSectorReads(b, 1);
    FieldPlaces(BootSector(b, 1));
    DivModUnique(70_000 - 601, 1, 70_000 - 601, 0);
  }

  /** Free count and last cluster as an FSInfo sector gives them; unknown without its signatures. */
  function Hints(s: Sector): (nat, nat)
  {
    if LdWord(s, 510) == 0xAA55 && LdDword(s, 0) == 0x4161_5252 && LdDword(s, 484) == 0x6141_7272
      then (LdDword(s, 488), LdDword(s, 492))
    else (0xFFFF_FFFF, 0xFFFF_FFFF)
  }

  /** What sync_fs stores in FSInfo, mounting finds there. */
  lemma HintsRoundTrip(free: nat, last: nat)
    requires free < TWO32 && last < TWO32
    ensures Hints(InfoSector(free, last)) == (free, last)
  {
    hide LdWord;
    hide LdDword;
    hide InfoSector;
    InfoSectorDecodes(free, last);
  }

  /** find_volume once check_fs has found a FAT boot sector at `bsect` and left it in the window. */
  method FindVolume(disk: Drive, win: array<Byte>, bsect: nat) returns (res: FResult, fs: Fatfs?)
    requires win.Length == SS && bsect < |disk.image| <= NO_SECTOR && win[..] == disk.image[bsect]
    modifies win, disk`failed
    ensures old(disk.failed) ==> disk.failed
    ensures res in {FR_OK, FR_NO_FILESYSTEM} && (res == FR_OK <==> fs != null)
    ensures res == FR_OK <==> Accepts(Fields(disk.image[bsect]))
    ensures NoWrap(Fields(disk.image[bsect]), bsect) ==> (res == FR_OK <==> Fine(Fields(disk.image[bsect])))
    ensures fs != null ==> fresh(fs) && fs.disk == disk && fs.win == win && !fs.wflag && fs.vol.volbase == bsect
    ensures fs != null && NoWrap(Fields(disk.image[bsect]), bsect) ==>
      Sound(fs.vol) && fs.vol == Geometry(Fields(disk.image[bsect]), bsect)
    ensures fs != null && !NoWrap(Fields(disk.image[bsect]), bsect) ==> !Sound(fs.vol)
    ensures fs != null ==>
      var used := fs.vol.fsType == FAT32 && disk.image[bsect][48] == 1 && disk.image[bsect][49] == 0;
      && (!used ==> fs.fsiFlag == 0x80 && fs.freeClst == fs.lastClst == 0xFFFF_FFFF)
      && (used && !disk.failed ==>
           fs.fsiFlag == 0 && bsect + 1 < |disk.image| && (fs.freeClst, fs.lastClst) == Hints(disk.image[bsect + 1]))
    ensures fs != null && Fits(fs.vol, disk.image) && Mirrored(fs.vol, disk.image) ==>
      fs.Mounted() && (fs.Valid() <==> fs.fsiFlag == 0x80 || InfoClear(disk.image[bsect]))
  {
    hide LdWord;
    hide LdDword;
    hide Fine;
    hide NoWrap;
    hide Geometry;
    hide Fields;
    hide Accepts;
    hide Sound;
    ghost var w: Sector := win[..];
    var infoSect := LdWord(win[..], BPB_FSInfo32);
    FieldPlaces(w);
    var g := ReadGeometry(win[..], bsect);
    if g == None {
      return FR_NO_FILESYSTEM, null;
    }
    var winsect, fsiFlag, lastClst, freeClst := bsect, 0x80, 0xFFFF_FFFF, 0xFFFF_FFFF;
    if NoWrap(Fields(w), bsect) {
      FineIsSound(Fields(w), bsect);
    }
    if g.value.fsType == FAT32 && infoSect == 1 {
      var ok := disk.ReadSector(win, bsect + 1);
      winsect := if ok then bsect + 1 else NO_SECTOR;
      if ok {
        fsiFlag := 0;
        if
          && LdWord(win[..], 510) == 0xAA55
          && LdDword(win[..], 0) == 0x4161_5252
          && LdDword(win[..], 484) == 0x6141_7272
        {
          freeClst := LdDword(win[..], 488);
          lastClst := LdDword(win[..], 492);
        }
      }
    }
    fs := new Fatfs(disk, g.value, win, winsect, fsiFlag, lastClst, freeClst);
    res := FR_OK;
    if Fits(g.value, disk.image) && Mirrored(g.value, disk.image) {
      InfoAhead(w, bsect, g.value);
    }
  }

  lemma InfoAhead(w: Sector, bsect: nat, v: Volume)
    requires Sound(v) && (NoWrap(Fields(w), bsect) ==> Fine(Fields(w)) && v == Geometry(Fields(w), bsect))
    requires v.volbase == bsect && (!NoWrap(Fields(w), bsect) ==> !Sound(v))
    ensures LdWord(w, BPB_FSInfo32) == 1 ==> (InfoClear(w) <==> bsect + 1 < v.fatbase)
  {
    hide Fine;
    hide Sound;
    hide LdWord;
    FieldPlaces(w);
  }
}
