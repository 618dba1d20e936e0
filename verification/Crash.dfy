/** What a power cut leaves: every image the drive holds while chains are stretched and cut has a sound FAT. */
module Crash {
  import opened Bytes
  import opened FatCodec
  import opened Layout
  import opened Disk
  import opened Window
  import opened FatAccess
  import opened Chains
  import opened Alloc

  /** Nothing in the FAT links to cluster `c`. */
  ghost predicate NoLinkTo(t: seq<nat>, c: nat)
  {
    forall d :: 2 <= d < |t| ==> t[d] != c
  }

  /** No link to a free cluster, and no two links to one cluster: at worst there are clusters no file owns. */
  ghost predicate Tidy(t: seq<nat>)
  {
    && (forall c :: 2 <= c < |t| && 2 <= t[c] < |t| ==> t[t[c]] != 0)
    && (forall c, d :: 2 <= c < |t| && 2 <= d < |t| && c != d && 2 <= t[c] < |t| ==> t[c] != t[d])
  }

  /** The chain of a file whose start only its directory entry names. */
  ghost predicate Live(t: seq<nat>, cs: seq<nat>)
  {
    IsChain(t, cs) && NoLinkTo(t, cs[0])
  }

  /** A cluster of a chain is in use, and all but the first are linked to from within. */
  lemma ChainMember(t: seq<nat>, cs: seq<nat>, x: nat)
    requires IsChain(t, cs) && x in cs
    ensures 2 <= x < |t| && t[x] >= 2
    ensures x == cs[0] || exists d :: d in cs && 2 <= d < |t| && t[d] == x
  {
    var i :| 0 <= i < |cs| && cs[i] == x;
    assert i > 0 ==> t[cs[i - 1]] == cs[i] && cs[i - 1] in cs;
    assert i + 1 < |cs| ==> t[cs[i]] == cs[i + 1];
  }

  /** Only the last cluster of a chain is marked as an end. */
  lemma {:induction false} EndIsLast(t: seq<nat>, cs: seq<nat>, x: nat)
    requires IsChain(t, cs) && x in cs && t[x] >= |t|
    ensures cs[|cs| - 1] == x
    decreases |cs|
  {
    if |cs| > 1 {
      ChainHead(t, cs);
      ChainTail(t, cs);
      EndIsLast(t, cs[1..], x);
    }
  }

  /** A free cluster is in no chain, and nothing links to it. */
  lemma FreeIsUnlinked(t: seq<nat>, c: nat)
    requires Tidy(t) && 2 <= c < |t| && t[c] == 0
    ensures NoLinkTo(t, c)
    ensures forall cs :: IsChain(t, cs) ==> c !in cs
  {
    forall cs | IsChain(t, cs) && c in cs
      ensures false
    {
      ChainMember(t, cs, c);
    }
  }

  /** Marking a free cluster as an end, the intermediate state of create_chain, harms nothing. */
  lemma MarkTidy(v: Volume, t: seq<nat>, c: nat)
    requires Sound(v) && |t| == v.nFatent && Tidy(t) && 2 <= c < |t| && t[c] == 0
    ensures Tidy(Linked(v, t, 0, c))
    ensures forall cs :: Live(t, cs) ==> Live(Linked(v, t, 0, c), cs)
  {
    FreeIsUnlinked(t, c);
    var u := Linked(v, t, 0, c);
    forall cs | Live(t, cs)
      ensures Live(u, cs)
    {
      ChainFrame(t, u, cs);
    }
  }

  /** Linking it to the end of a chain extends that chain and leaves the others. */
  lemma LinkTidy(v: Volume, t: seq<nat>, clst: nat, c: nat)
    requires Sound(v) && |t| == v.nFatent && Tidy(t) && 2 <= c < |t| && t[c] == 0
    requires 2 <= clst < |t| && t[clst] >= |t|
    ensures Tidy(Linked(v, t, clst, c))
    ensures forall cs :: Live(t, cs) && clst !in cs ==> Live(Linked(v, t, clst, c), cs)
    ensures forall cs :: Live(t, cs) && clst in cs ==> Live(Linked(v, t, clst, c), cs + [c])
  {
    FreeIsUnlinked(t, c);
    var u := Linked(v, t, clst, c);
    forall cs | Live(t, cs) && clst !in cs
      ensures Live(u, cs)
    {
      ChainFrame(t, u, cs);
    }
    forall cs | Live(t, cs) && clst in cs
      ensures Live(u, cs + [c])
    {
      EndIsLast(t, cs, clst);
      ChainExtend(t, cs, c, EndMark(v));
    }
  }

  /** Freeing a cluster nothing links to. */
  lemma FreeTidy(t: seq<nat>, c: nat)
    requires Tidy(t) && NoLinkTo(t, c) && 2 <= c < |t| && t[c] > 1
    ensures Tidy(t[c := 0]) && (t[c] < |t| ==> NoLinkTo(t[c := 0], t[c]))
    ensures forall cs :: Live(t, cs) && c !in cs ==> Live(t[c := 0], cs) && t[c] !in cs
  {
    var u := t[c := 0];
    forall cs | Live(t, cs) && c !in cs
      ensures Live(u, cs) && t[c] !in cs
    {
      ChainFrame(t, u, cs);
      if t[c] in cs {
        ChainMember(t, cs, t[c]);
      }
    }
  }

  /** Every stage of freeing the clusters behind a cut is tidy, and the chains not being freed stay live. */
  lemma {:induction false} StagesTidy(t: seq<nat>, c: nat, u: seq<nat>, d: nat)
    requires 2 <= |t| && Tidy(t) && (c < |t| ==> NoLinkTo(t, c)) && ReleaseStage(t, c, u, d)
    ensures |u| == |t| && Tidy(u)
    ensures forall cs :: Live(t, cs) && c !in cs ==> Live(u, cs)
    decreases |t| - Zeros(t, 2)
  {
    if !(u == t && d == c) {
      ZerosUpdate(t, 2, c, 0);
      FreeTidy(t, c);
      StagesTidy(t[c := 0], t[c], u, d);
    }
  }

  /** Cutting a live chain behind `p`: the head stays live, what follows is linked to by nothing. */
  lemma CapTidy(v: Volume, t: seq<nat>, p: nat)
    requires Sound(v) && |t| == v.nFatent && Tidy(t) && 2 <= p < |t| && 2 <= t[p] < |t|
    ensures Tidy(Capped(v, t, p)) && NoLinkTo(Capped(v, t, p), t[p])
    ensures forall cs :: Live(t, cs) && p !in cs ==> Live(Capped(v, t, p), cs) && t[p] !in cs
  {
    var u := Capped(v, t, p);
    forall cs | Live(t, cs) && p !in cs
      ensures Live(u, cs) && t[p] !in cs
    {
      ChainFrame(t, u, cs);
      if t[p] in cs {
        ChainMember(t, cs, t[p]);
      }
    }
  }

  /** A file has its chain, of which only its directory entry names the start. */
  ghost predicate Has(t: seq<nat>, cs: seq<nat>)
  {
    cs == [] || Live(t, cs)
  }

  /** A tidy FAT with the chains of all files. */
  ghost predicate Whole(t: seq<nat>, chains: seq<seq<nat>>)
  {
    && Tidy(t)
    && (forall f :: 0 <= f < |chains| ==> Has(t, chains[f]))
    && (forall f, g :: 0 <= f < |chains| && 0 <= g < |chains| && f != g ==> Disjoint(chains[f], chains[g]))
  }

  /** A tidy FAT in which every file has its chain from before an operation or the one after it. */
  ghost predicate Between(t: seq<nat>, before: seq<seq<nat>>, after: seq<seq<nat>>)
  {
    && Tidy(t) && |before| == |after|
    && forall f :: 0 <= f < |before| ==> Has(t, before[f]) || Has(t, after[f])
  }

  /** The last cluster of a chain, 0 if there is none. */
  function Tip(cs: seq<nat>): nat
  {
    if cs == [] then 0 else cs[|cs| - 1]
  }

  /** The files' chains after create_chain has returned `ncl` for file `f`. */
  function Longer(chains: seq<seq<nat>>, f: nat, ncl: nat): (after: seq<seq<nat>>)
    requires f < |chains|
  {
    if ncl < 2 then chains else chains[f := chains[f] + [ncl]]
  }

  /** Every raw FAT create_chain lets the drive hold while it stretches file `f`, and the one it leaves. */
  lemma CreateSafe(v: Volume, t: seq<nat>, u: seq<nat>, chains: seq<seq<nat>>, f: nat, last: nat, ncl: nat)
    requires Sound(v) && |t| == v.nFatent && Whole(t, chains) && f < |chains|
      && Grown(v, t, u, Tip(chains[f]), last, ncl)
    ensures forall x :: AllocStage(v, t, x) ==> Between(x, chains, Longer(chains, f, ncl))
    ensures Whole(u, Longer(chains, f, ncl))
  {
    hide Tidy;
    hide Linked;
    hide Chosen;
    hide IsChain;
    hide NoLinkTo;
    forall x | AllocStage(v, t, x)
      ensures Tidy(x) && forall g :: 0 <= g < |chains| ==> Has(x, chains[g])
    {
      if x != t {
        var c :| 2 <= c < |t| && t[c] == 0 && x == Linked(v, t, 0, c);
        MarkTidy(v, t, c);
      }
    }
    TipEnds(t, chains[f]);
    if ncl >= 2 {
      ChosenFree(v, t, Tip(chains[f]), last, ncl);
      FreeIsUnlinked(t, ncl);
      Stretched(v, t, chains, f, ncl);
    }
  }

  lemma ChosenFree(v: Volume, t: seq<nat>, clst: nat, last: nat, ncl: nat)
    requires |t| == v.nFatent && Chosen(v, t, clst, last, ncl)
    ensures 2 <= ncl < |t| && t[ncl] == 0
  {
    hide NoneFreeBefore;
  }

  lemma TipEnds(t: seq<nat>, cs: seq<nat>)
    requires Has(t, cs)
    ensures cs == [] <==> Tip(cs) < 2
    ensures cs != [] ==> 2 <= Tip(cs) < |t| && t[Tip(cs)] >= |t| && Tip(cs) in cs
  {
  }

  /** File `f` with the free cluster `c` linked to its end, the others as they were. */
  lemma Stretched(v: Volume, t: seq<nat>, chains: seq<seq<nat>>, f: nat, c: nat)
    requires Sound(v) && |t| == v.nFatent && Whole(t, chains) && f < |chains| && 2 <= c < |t| && t[c] == 0
    ensures Tip(chains[f]) < |t| && Whole(Linked(v, t, Tip(chains[f]), c), chains[f := chains[f] + [c]])
  {
    hide Tidy;
    TipEnds(t, chains[f]);
    var clst := Tip(chains[f]);
    var u, after := Linked(v, t, clst, c), chains[f := chains[f] + [c]];
    FreeIsUnlinked(t, c);
    if clst == 0 {
      MarkTidy(v, t, c);
      assert IsChain(u, [c]);
    } else {
      LinkTidy(v, t, clst, c);
    }
    forall g | 0 <= g < |chains|
      ensures c !in chains[g] && Has(u, after[g])
    {
      if g != f && chains[g] != [] && clst != 0 {
        assert clst !in chains[g];
      }
    }
  }

  /** The files' chains with that of file `f` cut after `k` clusters. */
  function Shorter(chains: seq<seq<nat>>, f: nat, k: nat): (after: seq<seq<nat>>)
    requires f < |chains| && k <= |chains[f]|
  {
    chains[f := chains[f][..k]]
  }

  /** Where the release ends is one of its stages. */
  lemma {:induction false} ReleaseIsStage(t: seq<nat>, c: nat) returns (d: nat)
    requires 2 <= |t|
    ensures ReleaseStage(t, c, Release(t, c).0, d)
    decreases |t| - Zeros(t, 2)
  {
    if c < 2 || c >= |t| || t[c] <= 1 {
      d := c;
    } else {
      ZerosUpdate(t, 2, c, 0);
      d := ReleaseIsStage(t[c := 0], t[c]);
    }
  }

  /** The file being cut keeps, at every moment, the clusters it is to keep. */
  lemma HeadSafe(v: Volume, t: seq<nat>, cs: seq<nat>, k: nat, x: seq<nat>)
    requires Sound(v) && |t| == v.nFatent && Tidy(t) && Live(t, cs) && k + 1 < |cs|
    requires OnTheWay(Capped(v, t, cs[k]), cs[k + 1], x)
    ensures t[cs[k]] == cs[k + 1] && Live(x, cs[..k + 1])
  {
    var u, head := Capped(v, t, cs[k]), cs[..k + 1];
    ChainCut(t, cs, k, EndMark(v));
    CapTidy(v, t, cs[k]);
    forall i | 0 <= i <= k
      ensures cs[i] != cs[k + 1]
    {
      ChainDistinct(t, cs, i, k + 1);
    }
    var d :| ReleaseStage(u, cs[k + 1], x, d);
    StagesTidy(u, cs[k + 1], x, d);
  }

  /** Every raw FAT remove_chain lets the drive hold while it cuts file `f` after its first k + 1 clusters. */
  lemma CutSafe(v: Volume, t: seq<nat>, chains: seq<seq<nat>>, f: nat, k: nat, x: seq<nat>)
    requires Sound(v) && |t| == v.nFatent && Whole(t, chains) && f < |chains| && k + 1 < |chains[f]|
    requires var (p, c) := (chains[f][k], chains[f][k + 1]); OnTheWay(Capped(v, t, p), c, x)
    ensures Whole(x, Shorter(chains, f, k + 1))
  {
    hide Tidy;
    hide IsChain;
    hide NoLinkTo;
    hide OnTheWay;
    var cs, after := chains[f], Shorter(chains, f, k + 1);
    HeadSafe(v, t, cs, k, x);
    forall g | 0 <= g < |chains| && g != f
      ensures Has(x, after[g])
    {
      assert cs[k] in cs && cs[k] !in chains[g];
      if chains[g] != [] {
        OthersSafe(v, t, cs, k, chains[g], x);
      }
    }
    StagesAreTidy(v, t, cs, k, x);
    forall y | y in after[f]
      ensures y in chains[f]
    {
    }
  }

  lemma StagesAreTidy(v: Volume, t: seq<nat>, cs: seq<nat>, k: nat, x: seq<nat>)
    requires Sound(v) && |t| == v.nFatent && Tidy(t) && Live(t, cs) && k + 1 < |cs|
    requires OnTheWay(Capped(v, t, cs[k]), cs[k + 1], x)
    ensures Tidy(x)
  {
    var u := Capped(v, t, cs[k]);
    ChainCut(t, cs, k, EndMark(v));
    CapTidy(v, t, cs[k]);
    var d :| ReleaseStage(u, cs[k + 1], x, d);
    StagesTidy(u, cs[k + 1], x, d);
  }

  /** The files not being cut keep their chains. */
  lemma OthersSafe(v: Volume, t: seq<nat>, cs: seq<nat>, k: nat, other: seq<nat>, x: seq<nat>)
    requires Sound(v) && |t| == v.nFatent && Tidy(t) && Live(t, cs) && k + 1 < |cs| && Live(t, other) && cs[k] !in other
    requires OnTheWay(Capped(v, t, cs[k]), cs[k + 1], x)
    ensures Live(x, other)
  {
    var u := Capped(v, t, cs[k]);
    ChainCut(t, cs, k, EndMark(v));
    CapTidy(v, t, cs[k]);
    var d :| ReleaseStage(u, cs[k + 1], x, d);
    StagesTidy(u, cs[k + 1], x, d);
  }

  /** Stretching a file by a cluster, and cutting it down to its first `keep` clusters. */
  datatype ChainOp = Grow(file: nat) | Cut(file: nat, keep: nat)

  /** What an operation does to the files' chains: create_chain may find no free cluster, and there may be nothing to
      cut. */
  ghost predicate Does(op: ChainOp, before: seq<seq<nat>>, after: seq<seq<nat>>)
  {
    && op.file < |before|
    && match op
       case Grow(f) => after == before || exists c :: after == before[f := before[f] + [c]]
       case Cut(f, keep) => after == if keep <= |before[f]| then before[f := before[f][..keep]] else before
  }

  /** The FATs a power cut may leave in one operation. */
  ghost function Tables(before: seq<seq<nat>>, after: seq<seq<nat>>): iset<seq<nat>>
  {
    iset t | Between(t, before, after)
  }

  lemma LogMore(v: Volume, log0: seq<Image>, log1: seq<Image>, log2: seq<Image>, allowed: iset<seq<nat>>,
      safe: iset<seq<nat>>)
    requires log0 <= log1 <= log2 && allowed <= safe
    requires forall k :: |log0| <= k < |log1| ==> Fits(v, log1[k]) && Table(v, log1[k]) in safe
    requires forall k :: |log1| <= k < |log2| ==> Fits(v, log2[k]) && Table(v, log2[k]) in allowed
    ensures forall k :: |log0| <= k < |log2| ==> Fits(v, log2[k]) && Table(v, log2[k]) in safe
  {
    forall k | |log0| <= k < |log2|
      ensures Fits(v, log2[k]) && Table(v, log2[k]) in safe
    {
      if k < |log1| {
        assert log2[k] == log1[k];
      }
    }
  }

  lemma WholeBetween(t: seq<nat>, chains: seq<seq<nat>>, after: seq<seq<nat>>)
    requires |after| == |chains|
    ensures Whole(t, chains) ==> Between(t, chains, after)
    ensures Whole(t, after) ==> Between(t, chains, after)
  {
  }

  /** The images remove_chain lets the drive hold. */
  lemma CutTables(v: Volume, t: seq<nat>, chains: seq<seq<nat>>, f: nat, k: nat)
    requires Sound(v) && |t| == v.nFatent && Whole(t, chains) && f < |chains| && k + 1 < |chains[f]|
    ensures iset{t} + StagesOf(Capped(v, t, chains[f][k]), chains[f][k + 1]) <= Tables(chains,
        Shorter(chains, f, k + 1))
    ensures Whole(Release(Capped(v, t, chains[f][k]), chains[f][k + 1]).0, Shorter(chains, f, k + 1))
  {
    hide Whole;
    hide Between;
    hide OnTheWay;
    hide Capped;
    hide Release;
    var p, c, after := chains[f][k], chains[f][k + 1], Shorter(chains, f, k + 1);
    WholeBetween(t, chains, after);
    forall x | OnTheWay(Capped(v, t, p), c, x)
      ensures Whole(x, after) && Between(x, chains, after)
    {
      CutSafe(v, t, chains, f, k, x);
      WholeBetween(x, chains, after);
    }
    ReleaseOnTheWay(Capped(v, t, p), c);
  }

  lemma ReleaseOnTheWay(t: seq<nat>, c: nat)
    requires 2 <= |t|
    ensures OnTheWay(t, c, Release(t, c).0)
  {
    var d := ReleaseIsStage(t, c);
  }

  /** create_chain at the end of file `f`. */
  method GrowStep(fs: Fatfs, chains: seq<seq<nat>>, f: nat) returns (ok: bool, after: seq<seq<nat>>)
    requires fs.Valid() && fs.vol.fsType != FAT12 && Whole(fs.Fat(), chains) && f < |chains|
    modifies fs`wflag, fs`winsect, fs`freeClst, fs`lastClst, fs`fsiFlag, fs.win, fs.disk
    ensures fs.Valid() && (old(fs.disk.failed) || !ok ==> fs.disk.failed)
    ensures ok ==> Whole(fs.Fat(), after) && Does(Grow(f), chains, after)
    ensures !fs.disk.failed ==> LoggedTables(fs, old(fs.disk.log), Tables(chains, after))
  {
    hide Fatfs.Logical;
    hide Table;
    hide Mirrored;
    hide Sound;
    hide Whole;
    hide Between;
    hide AllocStage;
    hide Grown;
    VolumeBounds(fs.vol);
    ghost var t, last := fs.Fat(), fs.lastClst;
    var ncl := CreateChain(fs, Tip(chains[f]));
    ok, after := ncl != FAT_ERROR, Longer(chains, f, ncl);
    if ok {
      CreateSafe(fs.vol, t, fs.Fat(), chains, f, last, ncl);
    }
  }

  /** The part of f_truncate that cuts file `f` after its first k + 1 clusters. */
  method CutStep(fs: Fatfs, chains: seq<seq<nat>>, f: nat, k: nat) returns (ok: bool)
    requires fs.Valid() && fs.vol.fsType != FAT12 && Whole(fs.Fat(), chains) && f < |chains| && k < |chains[f]|
    modifies fs`wflag, fs`winsect, fs`freeClst, fs`lastClst, fs`fsiFlag, fs.win, fs.disk
    ensures fs.Valid() && (old(fs.disk.failed) || !ok ==> fs.disk.failed)
    ensures ok ==> Whole(fs.Fat(), Shorter(chains, f, k + 1))
    ensures !fs.disk.failed ==> LoggedTables(fs, old(fs.disk.log), Tables(chains, Shorter(chains, f, k + 1)))
  {
    hide Fatfs.Logical;
    hide Table;
    hide Mirrored;
    hide Sound;
    hide Whole;
    hide Between;
    hide OnTheWay;
    hide Capped;
    hide Release;
    VolumeBounds(fs.vol);
    ghost var t, log, allowed := fs.Fat(), fs.disk.log, Tables(chains, Shorter(chains, f, k + 1));
    Linkage(t, chains, f, k);
    WholeBetween(t, chains, Shorter(chains, f, k + 1));
    var p := chains[f][k];
    var ncl := GetFat(fs, p);
    ok := ncl != FAT_ERROR;
    if !fs.disk.failed {
      LogExtends(fs.vol, log, log, fs.disk.log, fs.Logical(), allowed);
    }
    if ok && ncl < fs.vol.nFatent {
      ghost var log1 := fs.disk.log;
      CutTables(fs.vol, t, chains, f, k);
      var res := RemoveChain(fs, ncl, p);
      ok := res != FR_DISK_ERR;
      if !fs.disk.failed {
        LogMore(fs.vol, log, log1, fs.disk.log, iset{t} + StagesOf(Capped(fs.vol, t, p), ncl), allowed);
      }
    }
  }

  /** What the FAT says after cluster `k` of file `f`. */
  lemma Linkage(t: seq<nat>, chains: seq<seq<nat>>, f: nat, k: nat)
    requires Whole(t, chains) && f < |chains| && k < |chains[f]|
    ensures 2 <= chains[f][k] < |t|
    ensures if k + 1 < |chains[f]| then t[chains[f][k]] == chains[f][k + 1] && 2 <= t[chains[f][k]] < |t|
            else t[chains[f][k]] >= |t| && Shorter(chains, f, k + 1) == chains
  {
    assert Has(t, chains[f]);
    if k + 1 == |chains[f]| {
      assert chains[f][..k + 1] == chains[f];
    }
  }

  /** One operation on a FAT16 or FAT32 volume. */
  method ChainStep(fs: Fatfs, chains: seq<seq<nat>>, op: ChainOp) returns (ok: bool, after: seq<seq<nat>>)
    requires fs.Valid() && fs.vol.fsType != FAT12 && Whole(fs.Fat(), chains) && op.file < |chains|
      && (op.Cut? ==> op.keep > 0)
    modifies fs`wflag, fs`winsect, fs`freeClst, fs`lastClst, fs`fsiFlag, fs.win, fs.disk
    ensures fs.Valid() && (old(fs.disk.failed) || !ok ==> fs.disk.failed)
    ensures ok ==> Whole(fs.Fat(), after) && |after| == |chains| && Does(op, chains, after)
    ensures !fs.disk.failed ==> LoggedTables(fs, old(fs.disk.log), Tables(chains, after))
  {
    hide Fatfs.Logical;
    hide Table;
    hide Whole;
    hide Between;
    match op {
      case Grow(f) =>
        ok, after := GrowStep(fs, chains, f);
      case Cut(f, keep) =>
        ok, after := true, chains;
        if keep <= |chains[f]| {
          after := Shorter(chains, f, keep);
          ok := CutStep(fs, chains, f, keep - 1);
        }
    }
  }

  /** The images of one step, numbers lo..hi in the log. */
  ghost predicate LoggedStep(v: Volume, log: seq<Image>, lo: nat, hi: nat, before: seq<seq<nat>>, after: seq<seq<nat>>)
  {
    && lo <= hi <= |log|
    && forall k :: lo <= k < hi ==> Fits(v, log[k]) && Between(Table(v, log[k]), before, after)
  }

  /** The images of a run: step `m` wrote numbers marks[m]..marks[m + 1], taking the chains from trace[m] to trace[m +
      1]. */
  ghost predicate LoggedRun(v: Volume, log: seq<Image>, marks: seq<nat>, trace: seq<seq<seq<nat>>>)
  {
    && |marks| == |trace| > 0 && marks[|marks| - 1] == |log|
    && forall m, n :: 0 <= m && n == m + 1 < |marks| ==> LoggedStep(v, log, marks[m], marks[n], trace[m], trace[n])
  }

  lemma LoggedMore(fs: Fatfs, log: seq<Image>, marks: seq<nat>, trace: seq<seq<seq<nat>>>, after: seq<seq<nat>>)
    requires LoggedRun(fs.vol, log, marks, trace) && LoggedTables(fs, log, Tables(trace[|trace| - 1], after))
    ensures LoggedRun(fs.vol, fs.disk.log, marks + [|fs.disk.log|], trace + [after])
  {
    hide Between;
    hide Table;
    var marks1, trace1, log1, last := marks + [|fs.disk.log|], trace + [after], fs.disk.log, |marks| - 1;
    forall m, n | 0 <= m && n == m + 1 < |marks1|
      ensures LoggedStep(fs.vol, log1, marks1[m], marks1[n], trace1[m], trace1[n])
    {
      if n < |marks| {
        assert LoggedStep(fs.vol, log, marks[m], marks[n], trace[m], trace[n]);
        forall k | marks[m] <= k < marks[n]
          ensures log1[k] == log[k]
        {
        }
      }
    }
  }

  /** Any run of such operations: whenever the power fails, the drive holds a tidy FAT in which every file, the one
      being stretched or cut included, has the chain it had before the operation in progress or the one it has after
      it. */
  method ChainRun(fs: Fatfs, chains: seq<seq<nat>>, script: seq<ChainOp>)
      returns (ok: bool, trace: seq<seq<seq<nat>>>, ghost marks: seq<nat>)
    requires fs.Valid() && fs.vol.fsType != FAT12 && Whole(fs.Fat(), chains)
    requires forall k :: 0 <= k < |script| ==> script[k].file < |chains| && (script[k].Cut? ==> script[k].keep > 0)
    modifies fs`wflag, fs`winsect, fs`freeClst, fs`lastClst, fs`fsiFlag, fs.win, fs.disk
    ensures fs.Valid() && (!ok ==> fs.disk.failed)
    ensures 0 < |trace| <= |script| + 1 && trace[0] == chains
    ensures ok ==> |trace| == |script| + 1 && Whole(fs.Fat(), trace[|script|])
    ensures forall k :: 0 <= k < |trace| - 1 ==> Does(script[k], trace[k], trace[k + 1])
    ensures |marks| > 0 && marks[0] == |old(fs.disk.log)|
    ensures !fs.disk.failed ==> LoggedRun(fs.vol, fs.disk.log, marks, trace)
  {
    hide Fatfs.Logical;
    hide Table;
    hide Mirrored;
    hide Sound;
    hide Whole;
    hide Between;
    hide Does;
    hide LoggedRun;
    ok, trace, marks := true, [chains], [|fs.disk.log|];
    RunStart(fs.vol, fs.disk.log, chains);
    for k := 0 to |script|
      invariant fs.Valid() && ok && |trace| == k + 1 && |trace[k]| == |chains| && Whole(fs.Fat(), trace[k])
        && trace[0] == chains
      invariant forall j :: 0 <= j < k ==> Does(script[j], trace[j], trace[j + 1])
      invariant |marks| > 0 && marks[0] == |old(fs.disk.log)|
      invariant !fs.disk.failed ==> LoggedRun(fs.vol, fs.disk.log, marks, trace)
    {
      ghost var log := fs.disk.log;
      var after;
      ok, after := ChainStep(fs, trace[k], script[k]);
      if !ok {
        return;
      }
      if !fs.disk.failed {
        LoggedMore(fs, log, marks, trace, after);
      }
      trace, marks := trace + [after], marks + [|fs.disk.log|];
    }
  }

  lemma RunStart(v: Volume, log: seq<Image>, chains: seq<seq<nat>>)
    ensures LoggedRun(v, log, [|log|], [chains])
  {
  }
}
