/** Data sectors read and written behind the window's back. */
module DataIo {
  import opened Arith
  import opened Bytes
  import opened Layout
  import opened Disk
  import opened Window
  import opened FatAccess
  import opened FileData

  /** `count` sectors from `s` on lie in the data area, and none of them is in the window. */
  predicate DataSectors(fs: Fatfs, s: nat, count: nat)
    reads fs`winsect
  {
    fs.vol.database <= s && s + count <= End(fs.vol) && !(s <= fs.winsect < s + count)
  }

  /** Outside the data area written, nothing of the volume changed. */
  lemma DataWritten(fs: Fatfs, raw: Image, s: nat, count: nat, dirty: bool, at: nat, w: Sector)
    requires Fits(fs.vol, raw) && |fs.disk.image| == |raw| && fs.vol.database <= s && s + count <= End(fs.vol)
    requires forall k :: 0 <= k < |raw| && !(s <= k < s + count) ==> fs.disk.image[k] == raw[k]
    requires !(s <= at < s + count)
    ensures var a, b := Overlay(fs.vol, raw, dirty, at, w), Overlay(fs.vol, fs.disk.image, dirty, at, w);
            && (forall k :: 0 <= k < |raw| && !(s <= k < s + count) ==> a[k] == b[k])
            && (forall k :: s <= k < s + count ==> b[k] == fs.disk.image[k])
            && SameFat1(fs.vol, a, b)
    ensures Mirrored(fs.vol, raw) ==> Mirrored(fs.vol, fs.disk.image)
  {
    FatFits(fs.vol, raw);
  }

  /** disk_write of one data sector. */
  method WriteData(fs: Fatfs, buf: array<Byte>, s: nat) returns (ok: bool)
    requires fs.Valid() && DataSectors(fs, s, 1) && buf.Length == SS
    modifies fs.disk
    ensures fs.Valid() && |fs.Logical()| == |old(fs.Logical())|
    ensures fs.disk.failed == (old(fs.disk.failed) || !ok)
    ensures ok ==> fs.Logical() == old(fs.Logical())[s := buf[..]]
    ensures forall k :: 0 <= k < |fs.Logical()| && k != s ==> fs.Logical()[k] == old(fs.Logical())[k]
    ensures SameFat1(fs.vol, fs.Logical(), old(fs.Logical())) && fs.Fat() == old(fs.Fat())
  {
    ghost var raw, img := fs.disk.image, fs.Logical();
    ok := fs.disk.WriteSector(buf, s);
    DataWritten(fs, raw, s, 1, fs.wflag, fs.winsect, fs.win[..]);
    SameTable(fs.vol, img, fs.Logical());
  }

  /** A block of the caller's buffer is a chunk of what it holds. */
  lemma BlockOf(buf: array<Byte>, at: nat, count: nat, j: nat)
    requires at + SS * count <= buf.Length && j < count
    ensures Block(buf, at + SS * j) == Chunk(buf[at..at + SS * count], j)
  {
    var w := buf[at..at + SS * count];
    forall k | 0 <= k < SS
      ensures Block(buf, at + SS * j)[k] == Chunk(w, j)[k]
    {
      assert w[SS * j + k] == buf[at + (SS * j + k)];
    }
  }

  /** disk_write of several data sectors straight from the caller's buffer. */
  method WriteDataBlock(fs: Fatfs, buf: array<Byte>, at: nat, s: nat, count: nat) returns (ok: bool)
    requires fs.Valid() && DataSectors(fs, s, count) && at + SS * count <= buf.Length
    modifies fs.disk
    ensures fs.Valid() && |fs.Logical()| == |old(fs.Logical())|
    ensures fs.disk.failed == (old(fs.disk.failed) || !ok)
    ensures ok ==> Chunks(fs.Logical(), s, count, buf[at..at + SS * count])
    ensures forall k :: 0 <= k < |fs.Logical()| && !(s <= k < s + count) ==> fs.Logical()[k] == old(fs.Logical())[k]
    ensures SameFat1(fs.vol, fs.Logical(), old(fs.Logical())) && fs.Fat() == old(fs.Fat())
  {
    ghost var raw, img := fs.disk.image, fs.Logical();
    ok := fs.disk.Write(buf, at, s, count);
    DataWritten(fs, raw, s, count, fs.wflag, fs.winsect, fs.win[..]);
    SameTable(fs.vol, img, fs.Logical());
    if ok {
      ghost var w := buf[at..at + SS * count];
      forall j | 0 <= j < count
        ensures fs.Logical()[s + j] == Chunk(w, j)
      {
        BlockOf(buf, at, count, j);
        assert fs.disk.image[s + j] == Block(buf, at + SS * (s + j - s));
      }
    }
  }

  /** disk_read of one data sector into a sector buffer. */
  method ReadData(fs: Fatfs, buf: array<Byte>, s: nat) returns (ok: bool)
    requires fs.Valid() && DataSectors(fs, s, 1) && buf.Length == SS && buf != fs.win
    modifies buf, fs.disk`failed
    ensures fs.Valid() && fs.Logical() == old(fs.Logical())
    ensures fs.disk.failed == (old(fs.disk.failed) || !ok)
    ensures ok ==> s < |fs.Logical()| && buf[..] == fs.Logical()[s]
  {
    FatFits(fs.vol, fs.disk.image);
    ok := fs.disk.ReadSector(buf, s);
  }

  /** disk_read of several data sectors straight into the caller's buffer. */
  method ReadDataBlock(fs: Fatfs, buf: array<Byte>, at: nat, s: nat, count: nat) returns (ok: bool)
    requires fs.Valid() && DataSectors(fs, s, count) && at + SS * count <= buf.Length && buf != fs.win
    modifies buf, fs.disk`failed
    ensures fs.Valid() && fs.Logical() == old(fs.Logical())
    ensures fs.disk.failed == (old(fs.disk.failed) || !ok)
    ensures ok ==> s + count <= |fs.Logical()|
    ensures ok ==> forall i :: 0 <= i < SS * count ==> buf[at + i] == fs.Logical()[s + i / SS][i % SS]
    ensures forall i :: 0 <= i < buf.Length && !(at <= i < at + SS * count) ==> buf[i] == old(buf[i])
  {
    FatFits(fs.vol, fs.disk.image);
    ok := fs.disk.Read(buf, at, s, count);
    if ok {
      forall i | 0 <= i < SS * count
        ensures buf[at + i] == fs.Logical()[s + i / SS][i % SS]
      {
        DivModFacts(i, SS);
        assert fs.Logical()[s + i / SS] == fs.disk.image[s + i / SS];
      }
    }
  }
}
