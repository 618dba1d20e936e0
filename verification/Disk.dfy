/** The drive below FatFs: sectors addressed by LBA, read and written whole, by calls that may fail. */
module Disk {
  import opened Bytes

  /** The sector's worth of bytes at `at` in a buffer. */
  function Block(buf: array<Byte>, at: nat): (b: Sector)
    requires at + SS <= buf.Length
    reads buf
  {
    buf[at..at + SS]
  }

  /** A sector after a write: unchanged off the target, the buffer's block on success, anything on failure. */
  function Written(before: Sector, target: bool, buf: array<Byte>, at: int, ok: bool, junk: Sector): Sector
    requires target && ok ==> 0 <= at && at + SS <= buf.Length
    reads buf
  {
    if !target then before else if ok then Block(buf, at) else junk
  }

  class Drive {
    var image: Image
    /** Every image the drive has held since it was attached, one per write. */
    ghost var log: seq<Image>
    /** A call has reported an error. */
    ghost var failed: bool

    constructor (image: Image)
      ensures this.image == image && !failed && log == []
    {
      this.image, this.log, this.failed := image, [], false;
    }

    /** Fill buf[at..] with `count` sectors from `sector` on (disk_read). A failed read leaves anything there. */
    method Read(buf: array<Byte>, at: nat, sector: nat, count: nat) returns (ok: bool)
      requires at + SS * count <= buf.Length
      modifies buf, this`failed
      ensures failed == (old(failed) || !ok)
      ensures ok ==> sector + count <= |image|
      ensures ok ==> forall i :: 0 <= i < SS * count ==> buf[at + i] == image[sector + i / SS][i % SS]
      ensures forall i :: 0 <= i < buf.Length && !(at <= i < at + SS * count) ==> buf[i] == old(buf[i])
    {
      ok := *;
      if sector + count > |image| {
        ok := false;
      }
      if ok {
        forall i | 0 <= i < SS * count {
          buf[at + i] := image[sector + i / SS][i % SS];
        }
      } else {
        var junk: int -> Byte := *;
        forall i | 0 <= i < SS * count {
          buf[at + i] := junk(i);
        }
        failed := true;
      }
    }

    /** Write buf[at..] to `count` sectors from `sector` on (disk_write). A failed write leaves anything in those
        sectors. */
    method Write(buf: array<Byte>, at: nat, sector: nat, count: nat) returns (ok: bool)
      requires at + SS * count <= buf.Length
      modifies this
      ensures failed == (old(failed) || !ok)
      ensures |image| == |old(image)|
      ensures ok ==> sector + count <= |image|
      ensures ok ==> forall s :: sector <= s < sector + count ==> image[s] == Block(buf, at + SS * (s - sector))
      ensures forall s :: 0 <= s < |image| && !(sector <= s < sector + count) ==> image[s] == old(image)[s]
      ensures log == old(log) + [image]
    {
      ok := *;
      if sector + count > |image| {
        ok := false;
      }
      var junk: int -> Sector := *;
      image := seq(|image|, s requires 0 <= s < |image| reads this, buf =>
        Written(image[s], sector <= s < sector + count, buf, at + SS * (s - sector), ok, junk(s)));
      log := log + [image];
      failed := failed || !ok;
    }

    /** A one-sector read into a sector buffer. */
    method ReadSector(buf: array<Byte>, sector: nat) returns (ok: bool)
      requires buf.Length == SS
      modifies buf, this`failed
      ensures failed == (old(failed) || !ok)
      ensures ok ==> sector < |image| && buf[..] == image[sector]
    {
      ok := Read(buf, 0, sector, 1);
      if ok {
        forall i | 0 <= i < SS ensures buf[i] == image[sector][i] {
          assert buf[0 + i] == image[sector + i / SS][i % SS];
        }
      }
    }

    /** A one-sector write from a sector buffer. */
    method WriteSector(buf: array<Byte>, sector: nat) returns (ok: bool)
      requires buf.Length == SS
      modifies this
      ensures failed == (old(failed) || !ok)
      ensures |image| == |old(image)|
      ensures ok ==> sector < |image| && image == old(image)[sector := buf[..]]
      ensures forall s :: 0 <= s < |image| && s != sector ==> image[s] == old(image)[s]
      ensures log == old(log) + [image]
    {
      ok := Write(buf, 0, sector, 1);
      assert Block(buf, 0) == buf[..];
    }
  }
}
