/** Bytes, sectors and little-endian words: the units FatFs moves between memory and the drive. */
module Bytes {
  import opened Arith

  type Byte = x: int | 0 <= x < 256

  /** Bytes per sector (FF_MIN_SS == FF_MAX_SS == 512). */
  const SS := 512

  type Sector = s: seq<Byte> | |s| == SS witness seq(SS, _ => 0)

  /** One raw image of the drive, or one logical image: its sectors in LBA order. */
  type Image = seq<Sector>

  const TWO32 := 0x1_0000_0000

  /** Subtraction of two unsigned 32-bit values. */
  function Sub32(a: int, b: int): (r: int)
    ensures 0 <= r < TWO32
  {
    (a - b) % TWO32
  }

  /** The membership test `a - base < size` on unsigned 32-bit values is a range test. */
  lemma Sub32IsRangeTest(a: int, base: int, size: int)
    requires 0 <= a < TWO32 && 0 <= base && 0 <= size && base + size <= TWO32
    ensures Sub32(a, base) < size <==> base <= a < base + size
    ensures base <= a < base + size ==> Sub32(a, base) == a - base
  {
    if a < base {
      assert Sub32(a, base) == a - base + TWO32;
    }
  }

  datatype Option<+T> = None | Some(value: T)

  function LdWord(b: seq<Byte>, i: int): (w: int)
    requires 0 <= i && i + 2 <= |b|
    ensures 0 <= w < 0x1_0000
  {
    (b[i] as int) + 0x100 * (b[i + 1] as int)
  }

  function LdDword(b: seq<Byte>, i: int): (w: int)
    requires 0 <= i && i + 4 <= |b|
    ensures 0 <= w < TWO32
  {
    LdWord(b, i) + 0x1_0000 * LdWord(b, i + 2)
  }

  function StWord(b: seq<Byte>, i: int, w: nat): (r: seq<Byte>)
    requires 0 <= i && i + 2 <= |b|
    ensures |r| == |b| && LdWord(r, i) == w % 0x1_0000
    ensures forall k :: 0 <= k < |b| && !(i <= k < i + 2) ==> r[k] == b[k]
  {
    DivDiv(w, 0x100, 0x100);
    b[i := w % 0x100][i + 1 := w / 0x100 % 0x100]
  }

  /** Low and high halves of a 32-bit value, as `val >>= 8` splits it. */
  lemma HalvesOfDword(w: nat)
    ensures w % 0x1_0000 + 0x1_0000 * (w / 0x1_0000 % 0x1_0000) == w % TWO32
  {
    DivDiv(w, 0x1_0000, 0x1_0000);
  }

  function StDword(b: seq<Byte>, i: int, w: nat): (r: seq<Byte>)
    requires 0 <= i && i + 4 <= |b|
    ensures |r| == |b| && LdDword(r, i) == w % TWO32
    ensures forall k :: 0 <= k < |b| && !(i <= k < i + 4) ==> r[k] == b[k]
  {
    HalvesOfDword(w);
    StWord(StWord(b, i, w), i + 2, w / 0x1_0000)
  }
}
