/** The three packings of a FAT: 12-bit entries that share bytes, 16-bit words, and 28 bits of a dword. */
module FatCodec {
  import opened Arith
  import opened Bytes

  datatype FatType = FAT12 | FAT16 | FAT32

  /** All ones in the entry's width: what `val & mask` keeps. */
  function Modulus(t: FatType): (m: int)
    ensures m > 0
  {
    match t
    case FAT12 => 0x1000
    case FAT16 => 0x1_0000
    case FAT32 => 0x1000_0000
  }

  /** Offset of the first byte of an entry. */
  function Offset(t: FatType, c: nat): nat
  {
    match t
    case FAT12 => c + c / 2
    case FAT16 => 2 * c
    case FAT32 => 4 * c
  }

  /** Bytes an entry touches. */
  function Width(t: FatType): nat
  {
    match t
    case FAT12 => 2
    case FAT16 => 2
    case FAT32 => 4
  }

  /** The value of entry `c` of the FAT whose bytes are `b`. */
  function Entry(t: FatType, b: seq<Byte>, c: nat): (v: nat)
    requires Offset(t, c) + Width(t) <= |b|
    ensures v < Modulus(t)
  {
    var i := Offset(t, c);
    match t
    case FAT12 => if c % 2 == 1 then LdWord(b, i) / 0x10 else LdWord(b, i) % 0x1000
    case FAT16 => LdWord(b, i)
    case FAT32 => LdDword(b, i) % 0x1000_0000
  }

  /** The four reserved bits above a FAT32 entry; the other FATs have none. */
  function Reserved(t: FatType, b: seq<Byte>, c: nat): nat
    requires Offset(t, c) + Width(t) <= |b|
  {
    if t == FAT32 then LdDword(b, Offset(t, c)) / 0x1000_0000 else 0
  }

  /** First of the two FAT12 bytes after a store: the high nibble is ours for odd clusters, the whole byte for even
      ones. */
  function Low12(old_: Byte, c: nat, val: int): Byte
  {
    if c % 2 == 1 then old_ % 0x10 + val % 0x10 * 0x10 else val % 0x100
  }

  /** Second of the two FAT12 bytes after a store. */
  function High12(old_: Byte, c: nat, val: int): Byte
  {
    if c % 2 == 1 then val / 0x10 % 0x100 else old_ / 0x10 * 0x10 + val / 0x100 % 0x10
  }

  /** The bytes of the FAT after storing `val` in entry `c`. */
  function Store(t: FatType, b: seq<Byte>, c: nat, val: nat): (r: seq<Byte>)
    requires Offset(t, c) + Width(t) <= |b|
    ensures |r| == |b|
  {
    var i := Offset(t, c);
    match t
    case FAT12 => b[i := Low12(b[i], c, val)][i + 1 := High12(b[i + 1], c, val)]
    case FAT16 => StWord(b, i, val)
    case FAT32 => StDword(b, i, val % 0x1000_0000 + LdDword(b, i) / 0x1000_0000 * 0x1000_0000)
  }

  /** Two FAT12 entries are three bytes, read as one little-endian number. */
  lemma PairBytes(b: seq<Byte>, k: nat)
    requires 3 * k + 3 <= |b|
    ensures Entry(FAT12, b, 2 * k) < 0x1000 && Entry(FAT12, b, 2 * k + 1) < 0x1000
    ensures Entry(FAT12, b, 2 * k) + 0x1000 * Entry(FAT12, b, 2 * k + 1)
      == b[3 * k] as int + 0x100 * b[3 * k + 1] as int + 0x1_0000 * b[3 * k + 2] as int
  {
    DivModFacts(b[3 * k + 1], 0x10);
    EvenEntry(b, k);
    OddEntry(b, k);
  }

  lemma EvenEntry(b: seq<Byte>, k: nat)
    requires 3 * k + 2 <= |b|
    ensures Entry(FAT12, b, 2 * k) == b[3 * k] as int + 0x100 * (b[3 * k + 1] as int % 0x10)
  {
    var lo, mid := b[3 * k], b[3 * k + 1];
    DivModFacts(mid, 0x10);
    DivModUnique(lo as int + 0x100 * mid as int, 0x1000, mid / 0x10, lo as int + 0x100 * (mid as int % 0x10));
  }

  lemma OddEntry(b: seq<Byte>, k: nat)
    requires 3 * k + 3 <= |b|
    ensures Entry(FAT12, b, 2 * k + 1) == b[3 * k + 1] / 0x10 + 0x10 * b[3 * k + 2] as int
  {
    var mid, hi := b[3 * k + 1], b[3 * k + 2];
    DivModFacts(mid, 0x10);
    DivModUnique(mid as int + 0x100 * hi as int, 0x10, mid / 0x10 + 0x10 * hi as int, mid % 0x10);
  }

  /** A FAT16 entry is two bytes; a FAT32 entry is four, their upper four bits reserved. */
  lemma WideBytes(b: seq<Byte>, c: nat)
    ensures 2 * c + 2 <= |b| ==> Entry(FAT16, b, c) == b[2 * c] as int + 0x100 * b[2 * c + 1] as int
    ensures 4 * c + 4 <= |b| ==>
      && Entry(FAT32, b, c) < 0x1000_0000 && Reserved(FAT32, b, c) < 0x10
      && Entry(FAT32, b, c) + 0x1000_0000 * Reserved(FAT32, b, c)
         == b[4 * c] as int + 0x100 * b[4 * c + 1] as int + 0x1_0000 * b[4 * c + 2] as int
            + 0x100_0000 * b[4 * c + 3] as int
  {
    if 4 * c + 4 <= |b| {
      DivModFacts(LdDword(b, 4 * c), 0x1000_0000);
    }
  }

  /** The lower 28 bits of a dword leave out the upper half of its last byte. */
  lemma LowBits(b: seq<Byte>, c: nat)
    requires 4 * c + 4 <= |b|
    ensures Entry(FAT32, b, c) == b[4 * c] as int + 0x100 * b[4 * c + 1] as int + 0x1_0000 * b[4 * c + 2] as int
      + 0x100_0000 * (b[4 * c + 3] as int % 0x10)
  {
    var i := 4 * c;
    DivModFacts(b[i + 3], 0x10);
    DivModUnique(LdDword(b, i), 0x1000_0000, b[i + 3] / 0x10,
                 b[i] as int + 0x100 * b[i + 1] as int + 0x1_0000 * b[i + 2] as int
                 + 0x100_0000 * (b[i + 3] as int % 0x10));
  }

  /** An odd FAT12 entry is the high nibble of its first byte and its whole second byte. */
  lemma Odd12(nibble: nat, val: nat)
    requires nibble < 0x10
    ensures (nibble + val % 0x10 * 0x10 + 0x100 * (val / 0x10 % 0x100)) / 0x10 == val % 0x1000
  {
    DivDiv(val, 0x10, 0x100);
    DivModUnique(nibble + val % 0x10 * 0x10 + 0x100 * (val / 0x10 % 0x100), 0x10, val % 0x1000, nibble);
  }

  /** An even FAT12 entry is its whole first byte and the low nibble of its second byte. */
  lemma Even12(nibble: nat, val: nat)
    ensures (val % 0x100 + 0x100 * (nibble * 0x10 + val / 0x100 % 0x10)) % 0x1000 == val % 0x1000
  {
    DivDiv(val, 0x100, 0x10);
    DivModUnique(val % 0x100 + 0x100 * (nibble * 0x10 + val / 0x100 % 0x10), 0x1000, nibble, val % 0x1000);
  }

  /** Changing the low nibble of its first byte does not show in an odd FAT12 entry. */
  lemma OddIgnoresLowNibble(b: Byte, nibble: nat, hi: Byte)
    requires nibble < 0x10
    ensures (b / 0x10 * 0x10 + nibble + 0x100 * hi as int) / 0x10 == (b as int + 0x100 * hi as int) / 0x10
  {
    DivModFacts(b, 0x10);
    DivModUnique(b / 0x10 * 0x10 + nibble + 0x100 * hi as int, 0x10, b / 0x10 + 0x10 * hi as int, nibble);
    DivModUnique(b as int + 0x100 * hi as int, 0x10, b / 0x10 + 0x10 * hi as int, b % 0x10);
  }

  /** Changing the high nibble of its second byte does not show in an even FAT12 entry. */
  lemma EvenIgnoresHighNibble(lo: Byte, b: Byte, nibble: nat)
    ensures (lo as int + 0x100 * (b % 0x10 + nibble * 0x10)) % 0x1000 == (lo as int + 0x100 * b as int) % 0x1000
  {
    DivModFacts(b, 0x10);
    DivModUnique(lo as int + 0x100 * (b % 0x10 + nibble * 0x10), 0x1000, nibble, lo as int + 0x100 * (b % 0x10));
    DivModUnique(lo as int + 0x100 * b as int, 0x1000, b / 0x10, lo as int + 0x100 * (b % 0x10));
  }

  /** The 28 value bits and the four reserved bits of a FAT32 dword do not disturb each other. */
  lemma Merge32(val: nat, before: nat)
    requires before < TWO32
    ensures var x := val % 0x1000_0000 + before / 0x1000_0000 * 0x1000_0000;
            x < TWO32 && x % 0x1000_0000 == val % 0x1000_0000 && x / 0x1000_0000 == before / 0x1000_0000
  {
    DivModUnique(val % 0x1000_0000 + before / 0x1000_0000 * 0x1000_0000, 0x1000_0000,
                 before / 0x1000_0000, val % 0x1000_0000);
  }

  lemma Store12ReadsBack(b: seq<Byte>, c: nat, val: nat)
    requires Offset(FAT12, c) + 2 <= |b|
    ensures Entry(FAT12, Store(FAT12, b, c, val), c) == val % 0x1000
  {
    var i := Offset(FAT12, c);
    if c % 2 == 1 { Odd12(b[i] % 0x10, val); } else { Even12(b[i + 1] / 0x10, val); }
  }

  /** Storing an entry reads back masked to the entry's width and keeps its reserved bits. */
  lemma StoreReadsBack(t: FatType, b: seq<Byte>, c: nat, val: nat)
    requires Offset(t, c) + Width(t) <= |b|
    ensures Entry(t, Store(t, b, c, val), c) == val % Modulus(t)
    ensures Reserved(t, Store(t, b, c, val), c) == Reserved(t, b, c)
  {
    hide LdWord;
    hide LdDword;
    hide StWord;
    hide StDword;
    match t
    case FAT12 =>
      Store12ReadsBack(b, c, val);
    case FAT16 =>
    case FAT32 =>
      Merge32(val, LdDword(b, Offset(t, c)));
  }

  /** Two FAT12 entries share a byte only as the even and the odd entry of one pair. */
  lemma Offsets12(c: nat, d: nat)
    requires c < d
    ensures Offset(FAT12, c) + 1 <= Offset(FAT12, d)
    ensures Offset(FAT12, c) + 1 == Offset(FAT12, d) <==> d == c + 1 && c % 2 == 0
  {
  }

  /** Storing a FAT12 entry leaves its neighbours alone, though they may share one of its bytes. */
  lemma Store12LeavesOthers(b: seq<Byte>, c: nat, val: nat, d: nat)
    requires Offset(FAT12, c) + 2 <= |b| && Offset(FAT12, d) + 2 <= |b| && c != d
    ensures Entry(FAT12, Store(FAT12, b, c, val), d) == Entry(FAT12, b, d)
  {
    var i, j := Offset(FAT12, c), Offset(FAT12, d);
    if c < d {
      Offsets12(c, d);
      if i + 1 == j {
        OddIgnoresLowNibble(b[j], val / 0x100 % 0x10, b[j + 1]);
      }
    } else {
      Offsets12(d, c);
      if j + 1 == i {
        EvenIgnoresHighNibble(b[j], b[i], val % 0x10);
      }
    }
  }

  /** Storing an entry leaves every other entry alone, including FAT12 entries that share one of its bytes. */
  lemma StoreLeavesOthers(t: FatType, b: seq<Byte>, c: nat, val: nat, d: nat)
    requires Offset(t, c) + Width(t) <= |b| && Offset(t, d) + Width(t) <= |b| && c != d
    ensures Entry(t, Store(t, b, c, val), d) == Entry(t, b, d)
    ensures Reserved(t, Store(t, b, c, val), d) == Reserved(t, b, d)
  {
    if t == FAT12 {
      Store12LeavesOthers(b, c, val, d);
    }
  }
}
