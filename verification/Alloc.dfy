/** The cluster allocator: remove_chain, create_chain and the free-cluster count. */
module Alloc {
  import opened Arith
  import opened Bytes
  import opened FatCodec
  import opened Layout
  import opened Disk
  import opened Window
  import opened FatAccess
  import opened Chains

  /** free_clst is unknown, or it is the number of free clusters. */
  ghost predicate CountOk(fs: Fatfs)
    requires fs.Shape()
    reads fs`wflag, fs`winsect, fs`freeClst, fs.win, fs.disk`image
  {
    fs.freeClst > fs.vol.nFatent - 2 || fs.freeClst == Zeros(fs.Fat(), 2)
  }

  /** `flag |= 1`. */
  function SetBit0(flag: nat): (r: nat)
    ensures (r < 0x80 <==> flag < 0x80) && r % 2 == 1
  {
    if flag % 2 == 0 then flag + 1 else flag
  }

  /** The end mark as the FAT holds it. */
  function EndMark(v: Volume): (e: nat)
    requires Sound(v)
    ensures e >= v.nFatent && EndsChain(v.fsType, e)
  {
    EocReadsBack(v);
    EOC % Modulus(v.fsType)
  }

  /** Every image written since the log was `before` fits the volume and has a first FAT among those allowed. */
  ghost predicate LoggedTables(fs: Fatfs, before: seq<Image>, allowed: iset<seq<nat>>)
    reads fs.disk`log
  {
    && before <= fs.disk.log
    && forall k :: |before| <= k < |fs.disk.log| ==>
       Fits(fs.vol, fs.disk.log[k]) && Table(fs.vol, fs.disk.log[k]) in allowed
  }

  /** Extending a log by images that all hold one allowed first FAT. */
  lemma LogExtends(v: Volume, log0: seq<Image>, log1: seq<Image>, log2: seq<Image>, img: Image, allowed: iset<seq<nat>>)
    requires log0 <= log1 <= log2 && Fits(v, img) && Table(v, img) in allowed
    requires forall k :: |log0| <= k < |log1| ==> Fits(v, log1[k]) && Table(v, log1[k]) in allowed
    requires forall k :: |log1| <= k < |log2| ==> SameFat1(v, log2[k], img)
    ensures forall k :: |log0| <= k < |log2| ==> Fits(v, log2[k]) && Table(v, log2[k]) in allowed
  {
    forall k | |log0| <= k < |log2|
      ensures Fits(v, log2[k]) && Table(v, log2[k]) in allowed
    {
      if k < |log1| {
        assert log2[k] == log1[k];
      } else {
        SameTable(v, img, log2[k]);
      }
    }
  }

  lemma VolumeBounds(v: Volume)
    requires Sound(v)
    ensures 3 <= v.nFatent < 0x1000_0000 && 1 <= v.csize <= 128
  {
  }

  /** Freeing one cluster that was in use. */
  lemma FreeOne(t: seq<nat>, c: nat)
    requires 2 <= c < |t| && t[c] > 1
    ensures Zeros(t, 2) < |t| - 2 && Zeros(t[c := 0], 2) == Zeros(t, 2) + 1
    ensures Release(t, c) == Release(t[c := 0], t[c])
  {
    ZerosUpdate(t, 2, c, 0);
  }

  /** Where release stops. */
  lemma ReleaseStop(t: seq<nat>, c: nat)
    requires 2 <= |t|
    ensures c >= |t| || t[c] == 0 ==> Release(t, c) == (t, true)
    ensures 2 <= c < |t| && t[c] == 1 ==> Release(t, c) == (t, false)
  {
  }

  /** Since the image was `img` and the window at `at`, only the first FAT, its mirror and the window have changed. */
  ghost predicate FatOnly(fs: Fatfs, img: Image, at: nat, bad: bool)
    reads fs, fs.win, fs.disk
  {
    && fs.Valid()
    && SameOffFat1(fs.vol, fs.Logical(), img)
    && WindowNearFat(fs.vol, at, fs.winsect)
    && (bad ==> fs.disk.failed)
  }

  lemma FatOnlyTrans(fs: Fatfs, img: Image, at: nat, bad: bool, img1: Image, at1: nat, bad1: bool)
    requires FatOnly(fs, img1, at1, bad1)
    requires SameOffFat1(fs.vol, img1, img) && WindowNearFat(fs.vol, at, at1) && (bad ==> bad1)
    ensures FatOnly(fs, img, at, bad)
  {
  }

  /** A disk error while cluster `c` was being freed in the FAT `u`: at most that entry has changed, and a count that
      was right still is, exactly when that entry is free as it was before or in use as it was before. */
  ghost predicate BrokenOff(fs: Fatfs, exact: bool, u: seq<nat>, c: nat)
    requires fs.Shape()
    reads fs`wflag, fs`winsect, fs`freeClst, fs.win, fs.disk`image
  {
    && Torn(fs.vol, u, fs.Fat(), c)
    && (exact ==> (CountOk(fs) <==> fs.freeClst > fs.vol.nFatent - 2 || (fs.Fat()[c] == 0 <==> u[c] == 0)))
  }

  /** The same somewhere on the way from cluster `c` on. */
  ghost predicate CutShort(fs: Fatfs, exact: bool, t: seq<nat>, c: nat)
    requires fs.Shape() && 2 <= |t|
    reads fs`wflag, fs`winsect, fs`freeClst, fs.win, fs.disk`image
  {
    exists u, d :: ReleaseStage(t, c, u, d) && BrokenOff(fs, exact, u, d)
  }

  lemma TornSame(v: Volume, t: seq<nat>, c: nat)
    requires c < |t|
    ensures Torn(v, t, t, c)
  {
  }

  /** A torn store changes the number of free clusters exactly when its entry becomes free or ceases to be. */
  lemma TornCount(v: Volume, t: seq<nat>, u: seq<nat>, c: nat)
    requires 2 <= c < |t| && Torn(v, t, u, c)
    ensures |u| == |t| && (Zeros(u, 2) == Zeros(t, 2) <==> (u[c] == 0 <==> t[c] == 0))
    ensures v.fsType != FAT12 ==> u == t
  {
    ZerosUpdate(t, 2, c, u[c]);
  }

  /** One turn of the loop in remove_chain: free `clst`, unless it is free already or its entry is not a link. */
  method FreeCluster(fs: Fatfs, clst: nat) returns (res: FResult, nxt: nat)
    requires fs.Valid() && 2 <= clst < fs.vol.nFatent
    modifies fs`wflag, fs`winsect, fs`freeClst, fs`fsiFlag, fs.win, fs.disk
    ensures FatOnly(fs, old(fs.Logical()), old(fs.winsect), old(fs.disk.failed))
    ensures res in {FR_OK, FR_INT_ERR, FR_DISK_ERR} && (res == FR_DISK_ERR ==> fs.disk.failed)
    ensures res != FR_DISK_ERR ==> nxt == old(fs.Fat())[clst]
    ensures res == FR_INT_ERR <==> res != FR_DISK_ERR && nxt == 1
    ensures res != FR_DISK_ERR ==> fs.Fat() == if nxt > 1 then old(fs.Fat())[clst := 0] else old(fs.Fat())
    ensures old(CountOk(fs)) && (res != FR_DISK_ERR || fs.vol.fsType != FAT12) ==> CountOk(fs)
    ensures res == FR_DISK_ERR ==> BrokenOff(fs, old(CountOk(fs)), old(fs.Fat()), clst)
    ensures !fs.disk.failed && fs.vol.fsType != FAT12 ==> fs.LoggedFat(old(fs.disk.log), old(fs.Logical()))
    ensures fs.freeClst != old(fs.freeClst) || old(fs.fsiFlag) % 2 == 1 ==> fs.fsiFlag % 2 == 1
  {
    hide Fatfs.Logical;
    hide Table;
    hide Mirrored;
    hide Zeros;
    hide Sound;
    hide Torn;
    VolumeBounds(fs.vol);
    ghost var t := fs.Fat();
    res := FR_OK;
    nxt := GetFat(fs, clst);
    TornSame(fs.vol, t, clst);
    if nxt == 0 { return; }
    if nxt == 1 { return FR_INT_ERR, nxt; }
    if nxt == FAT_ERROR { return FR_DISK_ERR, nxt; }
    res := PutFat(fs, clst, 0);
    if res != FR_OK {
      TornCount(fs.vol, t, fs.Fat(), clst);
      return;
    }
    FreeOne(t, clst);
    if fs.freeClst < fs.vol.nFatent - 2 {
      fs.freeClst := fs.freeClst + 1;
      fs.fsiFlag := SetBit0(fs.fsiFlag);
    }
  }

  /** The FATs the raw drive may hold while the clusters linked from `c` are being freed. */
  ghost function StagesOf(t: seq<nat>, c: nat): iset<seq<nat>>
    requires 2 <= |t|
  {
    iset u | OnTheWay(t, c, u)
  }

  lemma LessExact(fs: Fatfs, exact: bool, less: bool, u: seq<nat>, c: nat)
    requires fs.Shape() && BrokenOff(fs, exact, u, c) && (less ==> exact)
    ensures BrokenOff(fs, less, u, c)
  {
  }

  /** The loop of remove_chain. */
  method ReleaseClusters(fs: Fatfs, start: nat) returns (res: FResult)
    requires fs.Valid() && 2 <= start < fs.vol.nFatent
    modifies fs`wflag, fs`winsect, fs`freeClst, fs`fsiFlag, fs.win, fs.disk
    ensures FatOnly(fs, old(fs.Logical()), old(fs.winsect), old(fs.disk.failed))
    ensures res in {FR_OK, FR_INT_ERR, FR_DISK_ERR} && (res == FR_DISK_ERR ==> fs.disk.failed)
    ensures res != FR_DISK_ERR ==> Release(old(fs.Fat()), start) == (fs.Fat(), res == FR_OK)
    ensures old(CountOk(fs)) && (res != FR_DISK_ERR || fs.vol.fsType != FAT12) ==> CountOk(fs)
    ensures res == FR_DISK_ERR ==> CutShort(fs, old(CountOk(fs)), old(fs.Fat()), start)
    ensures !fs.disk.failed && fs.vol.fsType != FAT12 ==>
      LoggedTables(fs, old(fs.disk.log), StagesOf(old(fs.Fat()), start))
    ensures fs.freeClst != old(fs.freeClst) || old(fs.fsiFlag) % 2 == 1 ==> fs.fsiFlag % 2 == 1
  {
    hide Fatfs.Logical;
    hide Table;
    hide Mirrored;
    hide Zeros;
    hide Release;
    hide ReleaseStage;
    hide Sound;
    hide BrokenOff;
    VolumeBounds(fs.vol);
    ghost var t := fs.Fat();
    var clst := start;
    StageStart(t, start);
    res := FR_OK;
    while true
      invariant FatOnly(fs, old(fs.Logical()), old(fs.winsect), old(fs.disk.failed))
      invariant 2 <= clst < fs.vol.nFatent && res == FR_OK
      invariant Release(t, start) == Release(fs.Fat(), clst)
      invariant ReleaseStage(t, start, fs.Fat(), clst)
      invariant old(CountOk(fs)) ==> CountOk(fs)
      invariant fs.freeClst != old(fs.freeClst) || old(fs.fsiFlag) % 2 == 1 ==> fs.fsiFlag % 2 == 1
      invariant !fs.disk.failed && fs.vol.fsType != FAT12 ==> LoggedTables(fs, old(fs.disk.log), StagesOf(t, start))
      decreases |fs.Fat()| - Zeros(fs.Fat(), 2)
    {
      ghost var u, img, log := fs.Fat(), fs.Logical(), fs.disk.log;
      ReleaseStop(u, clst);
      var nxt;
      ghost var exact := CountOk(fs);
      res, nxt := FreeCluster(fs, clst);
      if !fs.disk.failed && fs.vol.fsType != FAT12 {
        LogExtends(fs.vol, old(fs.disk.log), log, fs.disk.log, img, StagesOf(t, start));
      }
      if res == FR_DISK_ERR {
        LessExact(fs, exact, old(CountOk(fs)), u, clst);
      }
      if res != FR_OK || nxt == 0 { break; }
      FreeOne(u, clst);
      StageStep(t, start, u, clst);
      clst := nxt;
      ReleaseStop(fs.Fat(), clst);
      if !(clst < fs.vol.nFatent) { break; }
    }
  }

  lemma LessCut(fs: Fatfs, exact: bool, less: bool, t: seq<nat>, c: nat)
    requires fs.Shape() && 2 <= |t| && CutShort(fs, exact, t, c) && (less ==> exact)
    ensures CutShort(fs, less, t, c)
  {
    hide BrokenOff;
    hide ReleaseStage;
    var u, d :| ReleaseStage(t, c, u, d) && BrokenOff(fs, exact, u, d);
    LessExact(fs, exact, less, u, d);
  }

  /** The FAT after the previous cluster, if any, has been made the end of its chain. */
  ghost function Capped(v: Volume, t: seq<nat>, pclst: nat): (u: seq<nat>)
    requires Sound(v)
    ensures |u| == |t|
  {
    if pclst == 0 || pclst >= |t| then t else t[pclst := EndMark(v)]
  }

  /** Release clears an entry or leaves it. */
  lemma {:induction false} ReleaseClears(t: seq<nat>, c: nat, d: nat)
    requires 2 <= |t| && d < |t|
    ensures |Release(t, c).0| == |t| && Release(t, c).0[d] in {0, t[d]}
    decreases |t| - Zeros(t, 2)
  {
    if 2 <= c < |t| && t[c] > 1 {
      FreeOne(t, c);
      ReleaseClears(t[c := 0], t[c], d);
    }
  }

  method RemoveChain(fs: Fatfs, start: nat, pclst: nat) returns (res: FResult)
    requires fs.Valid()
    modifies fs`wflag, fs`winsect, fs`freeClst, fs`fsiFlag, fs.win, fs.disk
    ensures FatOnly(fs, old(fs.Logical()), old(fs.winsect), old(fs.disk.failed))
    ensures res in {FR_OK, FR_INT_ERR, FR_DISK_ERR} && (res == FR_DISK_ERR ==> fs.disk.failed)
    ensures !(2 <= start < fs.vol.nFatent) || (pclst != 0 && !(2 <= pclst < fs.vol.nFatent)) ==>
      res == FR_INT_ERR && fs.Logical() == old(fs.Logical())
    ensures 2 <= start < fs.vol.nFatent && (pclst == 0 || 2 <= pclst < fs.vol.nFatent) && res != FR_DISK_ERR ==>
      Release(Capped(fs.vol, old(fs.Fat()), pclst), start) == (fs.Fat(), res == FR_OK)
    ensures 2 <= start < fs.vol.nFatent && 2 <= pclst < fs.vol.nFatent && res != FR_DISK_ERR ==>
      EndsChain(fs.vol.fsType, fs.Fat()[pclst]) || fs.Fat()[pclst] == 0
    ensures (old(CountOk(fs) && (0 < pclst < fs.vol.nFatent ==> fs.Fat()[pclst] != 0))
      && (res != FR_DISK_ERR || fs.vol.fsType != FAT12)) ==>
      CountOk(fs)
    ensures res == FR_DISK_ERR ==>
      var exact := old(CountOk(fs) && (0 < pclst < fs.vol.nFatent ==> fs.Fat()[pclst] != 0));
      BrokenOff(fs, exact, old(fs.Fat()), pclst) || CutShort(fs, exact, Capped(fs.vol, old(fs.Fat()), pclst), start)
    ensures !fs.disk.failed && fs.vol.fsType != FAT12 ==>
      LoggedTables(fs, old(fs.disk.log),
                   iset{old(fs.Fat())} + StagesOf(Capped(fs.vol, old(fs.Fat()), pclst), start))
    ensures fs.freeClst != old(fs.freeClst) || old(fs.fsiFlag) % 2 == 1 ==> fs.fsiFlag % 2 == 1
  {
    hide Fatfs.Logical;
    hide Table;
    hide Mirrored;
    hide Zeros;
    hide Release;
    hide ReleaseStage;
    if start < 2 || start >= fs.vol.nFatent {
      return FR_INT_ERR;
    }
    ghost var t, img, ws, log := fs.Fat(), fs.Logical(), fs.winsect, fs.disk.log;
    ghost var allowed := iset{t} + StagesOf(Capped(fs.vol, t, pclst), start);
    res := FR_OK;
    if pclst != 0 {
      res := PutFat(fs, pclst, EOC);
      if !fs.disk.failed && fs.vol.fsType != FAT12 {
        LogExtends(fs.vol, log, log, fs.disk.log, img, allowed);
      }
      if res == FR_DISK_ERR {
        ZerosUpdate(t, 2, pclst, fs.Fat()[pclst]);
      }
      if res != FR_OK { return; }
      ZerosUpdate(t, 2, pclst, EndMark(fs.vol));
    }
    ghost var img1, ws1, bad1 := fs.Logical(), fs.winsect, fs.disk.failed;
    assert fs.Fat() == Capped(fs.vol, t, pclst);
    ghost var exact := CountOk(fs);
    res := ReleaseClusters(fs, start);
    if res == FR_DISK_ERR {
      LessCut(fs, exact, old(CountOk(fs) && (0 < pclst < fs.vol.nFatent ==> fs.Fat()[pclst] != 0)),
          Capped(fs.vol, t, pclst), start);
    }
    FatOnlyTrans(fs, img, ws, old(fs.disk.failed), img1, ws1, bad1);
    if pclst != 0 {
      ReleaseClears(Capped(fs.vol, t, pclst), start, pclst);
    }
  }

  /** The cluster tried first when a chain is stretched from `c`: the next one, wrapping. */
  function NextCluster(v: Volume, c: nat): nat
  {
    if c + 1 >= v.nFatent then 2 else c + 1
  }

  /** The search from `scl` reaches `ncl` without having found a free cluster on the way. */
  ghost predicate NoneFreeBefore(t: seq<nat>, scl: nat, ncl: nat, wrapped: bool)
  {
    forall c :: 2 <= c < |t| && (if wrapped then scl < c || c < ncl else scl < c < ncl) ==> t[c] != 0
  }

  /** Look for a free cluster after `scl`, wrapping once; 0 when there is none. */
  method FindFree(fs: Fatfs, scl: nat) returns (ncl: nat)
    requires fs.Valid() && 1 <= scl < fs.vol.nFatent
    modifies fs`wflag, fs`winsect, fs.win, fs.disk
    ensures fs.Valid() && fs.Logical() == old(fs.Logical())
    ensures ncl == FAT_ERROR ==> fs.disk.failed
    ensures ncl == 1 ==> exists c :: 2 <= c < fs.vol.nFatent && fs.Fat()[c] == 1
    ensures ncl == 0 ==> forall c :: 2 <= c < fs.vol.nFatent ==> fs.Fat()[c] != 0
    ensures ncl !in {0, 1, FAT_ERROR} ==>
      2 <= ncl < fs.vol.nFatent && fs.Fat()[ncl] == 0 && NoneFreeBefore(fs.Fat(), scl, ncl, ncl <= scl)
    ensures WindowNearFat(fs.vol, old(fs.winsect), fs.winsect)
    ensures old(fs.disk.failed) ==> fs.disk.failed
    ensures !fs.disk.failed ==> fs.LoggedFat(old(fs.disk.log), fs.Logical())
    ensures fs.wflag ==> old(fs.wflag)
  {
    hide Fatfs.Logical;
    hide Table;
    hide Mirrored;
    hide Sound;
    hide PlainEntry;
    ghost var t := fs.Fat();
    VolumeBounds(fs.vol);
    ncl := scl;
    ghost var wrapped := false;
    while true
      invariant fs.Valid() && fs.Logical() == old(fs.Logical())
      invariant if wrapped then 2 <= ncl < scl else scl <= ncl < fs.vol.nFatent
      invariant fs.Fat() == t && NoneFreeBefore(t, scl, ncl + 1, wrapped)
      invariant WindowNearFat(fs.vol, old(fs.winsect), fs.winsect)
      invariant old(fs.disk.failed) ==> fs.disk.failed
      invariant !fs.disk.failed ==> fs.LoggedFat(old(fs.disk.log), fs.Logical())
      invariant fs.wflag ==> old(fs.wflag)
      decreases !wrapped, fs.vol.nFatent - ncl
    {
      ncl := ncl + 1;
      if ncl >= fs.vol.nFatent {
        ncl := 2;
        wrapped := true;
        if ncl > scl { return 0; }
      }
      var cs := GetFat(fs, ncl);
      if cs == 0 { break; }
      if cs == 1 || cs == FAT_ERROR { return cs; }
      if ncl == scl { return 0; }
    }
  }

  /** Where the search starts: the last allocated cluster if it is usable, else the top of the FAT or the chain's
      end. */
  function SearchStart(v: Volume, clst: nat, last: nat): nat
  {
    if clst == 0 then (if last == 0 || last >= v.nFatent then 1 else last)
    else if 2 <= last < v.nFatent then last else clst
  }

  /** `ncl` is the free cluster create_chain takes: the one after `clst` if that is free, else the first found from the
      hint on. */
  ghost predicate Chosen(v: Volume, t: seq<nat>, clst: nat, last: nat, ncl: nat)
    requires |t| == v.nFatent
  {
    && 2 <= ncl < |t| && t[ncl] == 0
    && (if clst != 0 && 2 <= NextCluster(v, clst) < |t| && t[NextCluster(v, clst)] == 0 then ncl == NextCluster(v, clst)
        else NoneFreeBefore(t, SearchStart(v, clst, last), ncl, ncl <= SearchStart(v, clst, last)))
  }

  ghost predicate NoFree(t: seq<nat>)
  {
    forall c :: 2 <= c < |t| ==> t[c] != 0
  }

  ghost predicate HasOne(t: seq<nat>)
  {
    exists c :: 2 <= c < |t| && t[c] == 1
  }

  /** The choice of a new cluster in create_chain, after the early exits. */
  method Choose(fs: Fatfs, clst: nat) returns (ncl: nat)
    requires fs.Valid() && (clst == 0 || 2 <= clst < fs.vol.nFatent)
    modifies fs`wflag, fs`winsect, fs.win, fs.disk
    ensures fs.Valid() && fs.Logical() == old(fs.Logical())
    ensures ncl == FAT_ERROR ==> fs.disk.failed
    ensures ncl == 1 ==> HasOne(fs.Fat())
    ensures ncl == 0 ==> NoFree(fs.Fat())
    ensures ncl !in {0, 1, FAT_ERROR} ==> Chosen(fs.vol, fs.Fat(), clst, fs.lastClst, ncl)
    ensures WindowNearFat(fs.vol, old(fs.winsect), fs.winsect)
    ensures old(fs.disk.failed) ==> fs.disk.failed
    ensures !fs.disk.failed ==> fs.LoggedFat(old(fs.disk.log), fs.Logical())
    ensures fs.wflag ==> old(fs.wflag)
  {
    hide Fatfs.Logical;
    hide Table;
    hide Mirrored;
    hide Sound;
    VolumeBounds(fs.vol);
    ghost var t := fs.Fat();
    var scl;
    if clst == 0 {
      scl := fs.lastClst;
      if scl == 0 || scl >= fs.vol.nFatent {
        scl := 1;
      }
    } else {
      scl := clst;
    }
    ncl := 0;
    if scl == clst {
      ncl := NextCluster(fs.vol, scl);
      var cs := GetFat(fs, ncl);
      if cs == 1 || cs == FAT_ERROR { return cs; }
      if cs != 0 {
        cs := fs.lastClst;
        if cs >= 2 && cs < fs.vol.nFatent {
          scl := cs;
        }
        ncl := 0;
      }
    }
    if ncl == 0 {
      ncl := FindFree(fs, scl);
    }
    assert fs.Fat() == t;
  }

  /** The FAT after cluster `ncl` has been marked the end of a chain and, if `clst` is not 0, linked from it. */
  ghost function Linked(v: Volume, t: seq<nat>, clst: nat, ncl: nat): (u: seq<nat>)
    requires Sound(v) && ncl < |t| && clst < |t|
    ensures |u| == |t|
  {
    var m := t[ncl := EndMark(v)];
    if clst == 0 then m else m[clst := ncl]
  }

  lemma LinkedEnds(v: Volume, t: seq<nat>, clst: nat, ncl: nat)
    requires Sound(v) && ncl < |t| && clst < |t| && clst != ncl
    ensures EndsChain(v.fsType, Linked(v, t, clst, ncl)[ncl])
  {
  }

  /** Using up one free cluster and relinking one that is in use. */
  lemma UseOne(v: Volume, t: seq<nat>, clst: nat, ncl: nat)
    requires Sound(v) && |t| == v.nFatent && 2 <= ncl < |t| && clst < |t| && t[ncl] == 0
    requires clst != 0 ==> t[clst] != 0
    ensures Zeros(t, 2) > 0 && Zeros(Linked(v, t, clst, ncl), 2) == Zeros(t, 2) - 1
  {
    ZerosUpdate(t, 2, ncl, EndMark(v));
    if clst != 0 {
      ZerosUpdate(t[ncl := EndMark(v)], 2, clst, ncl);
    }
  }

  /** Every link and the end mark survive masking. */
  lemma LinkFits(v: Volume, c: nat)
    requires Sound(v) && c < v.nFatent
    ensures c % Modulus(v.fsType) == c
  {
    hide IsPow2;
    hide ClusterSector;
    DivModUnique(c, Modulus(v.fsType), 0, c);
  }

  /** put_fat on a cluster in range, storing a link or the end mark. */
  method PutLink(fs: Fatfs, clst: nat, val: nat) returns (res: FResult)
    requires fs.Valid() && 2 <= clst < fs.vol.nFatent && (val < fs.vol.nFatent || val == EOC)
    modifies fs`wflag, fs`winsect, fs.win, fs.disk
    ensures FatOnly(fs, old(fs.Logical()), old(fs.winsect), old(fs.disk.failed))
    ensures res == FR_OK || (res == FR_DISK_ERR && fs.disk.failed)
    ensures res == FR_OK ==> fs.Fat() == old(fs.Fat())[clst := if val == EOC then EndMark(fs.vol) else val]
    ensures res != FR_OK ==> Torn(fs.vol, old(fs.Fat()), fs.Fat(), clst)
    ensures res == FR_OK ==> InFat1(fs.vol, fs.winsect)
    ensures !fs.disk.failed && fs.vol.fsType != FAT12 ==> fs.LoggedFat(old(fs.disk.log), old(fs.Logical()))
  {
    hide Fatfs.Logical;
    hide Table;
    hide Mirrored;
    if val != EOC {
      LinkFits(fs.vol, val);
    }
    res := PutFat(fs, clst, val);
  }

  /** A disk error before or after `ncl` was marked. */
  ghost predicate HalfLinked(v: Volume, t: seq<nat>, u: seq<nat>, clst: nat, ncl: nat)
    requires Sound(v) && clst < |t| && ncl < |t|
  {
    Torn(v, t, u, ncl) || (clst != 0 && Torn(v, Linked(v, t, 0, ncl), u, clst))
  }

  /** Then the number of free clusters has not changed exactly when no entry has, or when on FAT12 the torn link reads
      as free. */
  lemma HalfLinkedCount(v: Volume, t: seq<nat>, u: seq<nat>, clst: nat, ncl: nat)
    requires Sound(v) && |t| == v.nFatent && 2 <= ncl < |t| && t[ncl] == 0
      && (clst == 0 || (2 <= clst < |t| && t[clst] != 0))
    requires HalfLinked(v, t, u, clst, ncl)
    ensures |u| == |t| && (Zeros(u, 2) == Zeros(t, 2) <==> u == t || (clst != 0 && u[clst] == 0))
    ensures v.fsType != FAT12 && clst != 0 ==> u[clst] != 0
  {
    if Torn(v, t, u, ncl) {
      ZerosUpdate(t, 2, ncl, u[ncl]);
    } else {
      var m := Linked(v, t, 0, ncl);
      ZerosUpdate(t, 2, ncl, EndMark(v));
      ZerosUpdate(m, 2, clst, u[clst]);
    }
  }

  /** Mark `ncl` the end of a chain and, if `clst` is not 0, link it from there. */
  method MarkAndLink(fs: Fatfs, clst: nat, ncl: nat) returns (res: FResult)
    requires fs.Valid() && 2 <= ncl < fs.vol.nFatent && (clst == 0 || 2 <= clst < fs.vol.nFatent)
    modifies fs`wflag, fs`winsect, fs.win, fs.disk
    ensures FatOnly(fs, old(fs.Logical()), old(fs.winsect), old(fs.disk.failed))
    ensures res == FR_OK || (res == FR_DISK_ERR && fs.disk.failed)
    ensures res == FR_OK ==> fs.Fat() == Linked(fs.vol, old(fs.Fat()), clst, ncl)
    ensures res != FR_OK ==> HalfLinked(fs.vol, old(fs.Fat()), fs.Fat(), clst, ncl)
    ensures res == FR_OK ==> InFat1(fs.vol, fs.winsect)
    ensures !fs.disk.failed && fs.vol.fsType != FAT12 ==>
      LoggedTables(fs, old(fs.disk.log), iset{old(fs.Fat()), Linked(fs.vol, old(fs.Fat()), 0, ncl)})
  {
    hide Fatfs.Logical;
    hide Table;
    hide Mirrored;
    hide Sound;
    VolumeBounds(fs.vol);
    ghost var t, img, ws, log, bad := fs.Fat(), fs.Logical(), fs.winsect, fs.disk.log, fs.disk.failed;
    ghost var allowed := iset{t, Linked(fs.vol, t, 0, ncl)};
    res := PutLink(fs, ncl, EOC);
    if !fs.disk.failed && fs.vol.fsType != FAT12 {
      LogExtends(fs.vol, log, log, fs.disk.log, img, allowed);
    }
    if res == FR_OK && clst != 0 {
      ghost var img1, ws1, log1, bad1 := fs.Logical(), fs.winsect, fs.disk.log, fs.disk.failed;
      res := PutLink(fs, clst, ncl);
      if !fs.disk.failed && fs.vol.fsType != FAT12 {
        LogExtends(fs.vol, log, log1, fs.disk.log, img1, allowed);
      }
      FatOnlyTrans(fs, img, ws, bad, img1, ws1, bad1);
    }
  }

  /** The last part of create_chain: mark, link, and account for the new cluster. */
  method LinkNew(fs: Fatfs, clst: nat, ncl: nat) returns (res: FResult)
    requires fs.Valid() && 2 <= ncl < fs.vol.nFatent && (clst == 0 || 2 <= clst < fs.vol.nFatent)
    requires fs.Fat()[ncl] == 0 && (clst != 0 ==> fs.Fat()[clst] != 0) && fs.freeClst > 0
    modifies fs`wflag, fs`winsect, fs`freeClst, fs`lastClst, fs`fsiFlag, fs.win, fs.disk
    ensures FatOnly(fs, old(fs.Logical()), old(fs.winsect), old(fs.disk.failed))
    ensures res == FR_OK || (res == FR_DISK_ERR && fs.disk.failed)
    ensures res == FR_OK ==> fs.Fat() == Linked(fs.vol, old(fs.Fat()), clst, ncl) && fs.lastClst == ncl
    ensures res == FR_OK ==> InFat1(fs.vol, fs.winsect)
    ensures old(CountOk(fs)) && res == FR_OK ==> CountOk(fs)
    ensures res != FR_OK ==> HalfLinked(fs.vol, old(fs.Fat()), fs.Fat(), clst, ncl)
    ensures old(CountOk(fs)) && res != FR_OK ==>
      (CountOk(fs) <==>
         fs.freeClst > fs.vol.nFatent - 2 || fs.Fat() == old(fs.Fat()) || (clst != 0 && fs.Fat()[clst] == 0))
    ensures res != FR_OK && fs.vol.fsType != FAT12 && clst != 0 ==> fs.Fat()[clst] != 0
    ensures !fs.disk.failed && fs.vol.fsType != FAT12 ==>
      LoggedTables(fs, old(fs.disk.log), iset{old(fs.Fat()), Linked(fs.vol, old(fs.Fat()), 0, ncl)})
    ensures res == FR_OK ==> fs.fsiFlag % 2 == 1
  {
    hide Fatfs.Logical;
    hide Table;
    hide Mirrored;
    hide Zeros;
    hide Linked;
    hide Sound;
    hide HalfLinked;
    VolumeBounds(fs.vol);
    UseOne(fs.vol, fs.Fat(), clst, ncl);
    ghost var t := fs.Fat();
    res := MarkAndLink(fs, clst, ncl);
    if res != FR_OK {
      HalfLinkedCount(fs.vol, t, fs.Fat(), clst, ncl);
    } else {
      fs.lastClst := ncl;
      if fs.freeClst <= fs.vol.nFatent - 2 {
        fs.freeClst := fs.freeClst - 1;
      }
      fs.fsiFlag := SetBit0(fs.fsiFlag);
    }
  }

  /** The FATs the raw drive may hold during create_chain: as before, or with one free cluster marked as an end. */
  ghost function AllocStages(v: Volume, t: seq<nat>): iset<seq<nat>>
    requires Sound(v)
  {
    iset u | AllocStage(v, t, u)
  }

  ghost predicate AllocStage(v: Volume, t: seq<nat>, u: seq<nat>)
    requires Sound(v)
  {
    u == t || exists c :: 2 <= c < |t| && t[c] == 0 && u == Linked(v, t, 0, c)
  }

  /** The outcome of create_chain on a FAT: an error, the cluster that already follows, or a new one linked in. */
  ghost predicate Grown(v: Volume, t: seq<nat>, u: seq<nat>, clst: nat, last: nat, ncl: nat)
    requires Sound(v) && |t| == v.nFatent
  {
    if ncl == 0 then u == t && (clst == 0 || (2 <= clst < |t| && t[clst] >= |t|))
    else if ncl == 1 then u == t && (HasOne(t) || (clst != 0 && (clst == 1 || clst >= |t| || t[clst] < 2)))
    else if clst == 0 then Chosen(v, t, clst, last, ncl) && u == Linked(v, t, clst, ncl)
    else (
      && 2 <= clst < |t| && t[clst] >= 2
      && (if t[clst] < |t| then ncl == t[clst] && u == t
          else Chosen(v, t, clst, last, ncl) && u == Linked(v, t, clst, ncl)))
  }

  /** create_chain took a new cluster rather than following a link. */
  ghost predicate TookNew(t: seq<nat>, clst: nat, ncl: nat)
  {
    ncl > 1 && ncl != FAT_ERROR && (clst == 0 || clst >= |t| || t[clst] >= |t|)
  }

  /** What a disk error in create_chain leaves: the FAT as it was, or a free cluster marked and at most half linked. */
  ghost predicate Interrupted(v: Volume, t: seq<nat>, u: seq<nat>, clst: nat)
    requires Sound(v)
  {
    u == t || (clst < |t| && exists c :: 2 <= c < |t| && t[c] == 0 && HalfLinked(v, t, u, clst, c))
  }

  /** Where a search from `s` comes to cluster `c`: the clusters above `s` first, then those from 2 on. */
  function Turn(n: nat, s: nat, c: nat): int
  {
    if c > s then c - s else c - s + n
  }

  /** What create_chain takes, told apart from how it looks: the next cluster, 2 after the last one, if that is free;
      otherwise no free cluster comes earlier in turn after the hint, or after the chain's end without one. */
  ghost predicate FirstInTurn(v: Volume, t: seq<nat>, clst: nat, last: nat, ncl: nat)
    requires |t| == v.nFatent
  {
    && 2 <= ncl < |t| && t[ncl] == 0
    && var nxt := if clst + 1 < |t| then clst + 1 else 2;
       var s := if 2 <= last < |t| then last else if clst != 0 then clst else 1;
       if clst != 0 && nxt < |t| && t[nxt] == 0 then ncl == nxt
       else forall c :: 2 <= c < |t| && t[c] == 0 ==> Turn(|t|, s, ncl) <= Turn(|t|, s, c)
  }

  lemma ChosenInTurn(v: Volume, t: seq<nat>, clst: nat, last: nat, ncl: nat)
    requires Sound(v) && |t| == v.nFatent && (clst == 0 || 2 <= clst < |t|) && Chosen(v, t, clst, last, ncl)
    ensures FirstInTurn(v, t, clst, last, ncl)
  {
    hide Sound;
    VolumeBounds(v);
  }

  /** 0: no free cluster, 1: internal error, FAT_ERROR: disk error, otherwise the cluster that follows `clst`. After a
      disk error a count that was right is one too high exactly when the mark is there and the link, torn on FAT12,
      does not read as free. */
  method CreateChain(fs: Fatfs, clst: nat) returns (ncl: nat)
    requires fs.Valid()
    modifies fs`wflag, fs`winsect, fs`freeClst, fs`lastClst, fs`fsiFlag, fs.win, fs.disk
    ensures FatOnly(fs, old(fs.Logical()), old(fs.winsect), old(fs.disk.failed))
    ensures ncl == FAT_ERROR ==> fs.disk.failed
    ensures ncl != FAT_ERROR ==> Grown(fs.vol, old(fs.Fat()), fs.Fat(), clst, old(fs.lastClst), ncl)
    ensures ncl != FAT_ERROR && !TookNew(old(fs.Fat()), clst, ncl) ==> fs.Logical() == old(fs.Logical())
    ensures TookNew(old(fs.Fat()), clst, ncl) ==> fs.lastClst == ncl && InFat1(fs.vol, fs.winsect)
    ensures TookNew(old(fs.Fat()), clst, ncl) ==>
      FirstInTurn(fs.vol, old(fs.Fat()), clst, old(fs.lastClst), ncl) && EndsChain(fs.vol.fsType, fs.Fat()[ncl])
    ensures ncl == 0 && old(CountOk(fs)) ==> NoFree(fs.Fat())
    ensures old(CountOk(fs)) && ncl != FAT_ERROR ==> CountOk(fs)
    ensures ncl == FAT_ERROR ==> Interrupted(fs.vol, old(fs.Fat()), fs.Fat(), clst)
    ensures old(CountOk(fs)) && ncl == FAT_ERROR ==>
      (CountOk(fs) <==>
         || fs.freeClst > fs.vol.nFatent - 2
         || fs.Fat() == old(fs.Fat())
         || (2 <= clst < fs.vol.nFatent && fs.Fat()[clst] == 0))
    ensures ncl == FAT_ERROR && fs.vol.fsType != FAT12 && 2 <= clst < fs.vol.nFatent && old(fs.Fat())[clst] != 0 ==>
      fs.Fat()[clst] != 0
    ensures !fs.disk.failed && fs.vol.fsType != FAT12 ==>
      LoggedTables(fs, old(fs.disk.log), AllocStages(fs.vol, old(fs.Fat())))
    ensures ncl != FAT_ERROR && !TookNew(old(fs.Fat()), clst, ncl) ==> (fs.wflag ==> old(fs.wflag))
    ensures TookNew(old(fs.Fat()), clst, ncl) ==> fs.fsiFlag % 2 == 1
  {
    hide Fatfs.Logical;
    hide Table;
    hide Mirrored;
    hide Zeros;
    hide Linked;
    hide Sound;
    hide NoneFreeBefore;
    hide HasOne;
    hide HalfLinked;
    VolumeBounds(fs.vol);
    ghost var t, img, ws, log, bad := fs.Fat(), fs.Logical(), fs.winsect, fs.disk.log, fs.disk.failed;
    ZerosNone(t, 2);
    if clst != 0 {
      var cs := GetFat(fs, clst);
      if !fs.disk.failed {
        LogExtends(fs.vol, log, log, fs.disk.log, img, AllocStages(fs.vol, t));
      }
      if cs < 2 { return 1; }
      if cs == FAT_ERROR { return cs; }
      if cs < fs.vol.nFatent { return cs; }
    }
    if fs.freeClst == 0 {
      return 0;
    }
    ghost var log1 := fs.disk.log;
    ncl := Choose(fs, clst);
    if !fs.disk.failed {
      LogExtends(fs.vol, log, log1, fs.disk.log, img, AllocStages(fs.vol, t));
    }
    if ncl == 0 || ncl == 1 || ncl == FAT_ERROR {
      return;
    }
    ghost var ws2, log2, bad2 := fs.winsect, fs.disk.log, fs.disk.failed;
    var res := LinkNew(fs, clst, ncl);
    FatOnlyTrans(fs, img, ws, bad, img, ws2, bad2);
    ChosenInTurn(fs.vol, t, clst, old(fs.lastClst), ncl);
    LinkedEnds(fs.vol, t, clst, ncl);
    if res != FR_OK {
      ncl := FAT_ERROR; // put_fat fails no other way on a cluster in range
    }
  }
}
