/** Cluster chains: linked lists stored in the FAT, and what allocation and release do to them. */
module Chains {

  /** A non-empty chain: each cluster's entry names the next one, and the last entry is an end mark. */
  ghost predicate IsChain(t: seq<nat>, cs: seq<nat>)
  {
    && |cs| > 0
    && (forall i :: 0 <= i < |cs| ==> 2 <= cs[i] < |t|)
    && (forall i, j :: 0 <= i && j == i + 1 < |cs| ==> t[cs[i]] == cs[j])
    && t[cs[|cs| - 1]] >= |t|
  }

  /** The chain of a file: none at all, or the chain from its start cluster. */
  ghost predicate FileChain(t: seq<nat>, start: nat, cs: seq<nat>)
  {
    if start == 0 then cs == [] else IsChain(t, cs) && cs[0] == start
  }

  ghost predicate Disjoint(a: seq<nat>, b: seq<nat>)
  {
    forall x :: x in a ==> x !in b
  }

  /** No chain visits a cluster twice: chains are acyclic. */
  lemma {:induction false} ChainDistinct(t: seq<nat>, cs: seq<nat>, i: nat, j: nat)
    requires IsChain(t, cs) && i < j < |cs|
    ensures cs[i] != cs[j]
    decreases |cs| - j
  {
    assert t[cs[i]] == cs[i + 1];
    if j + 1 < |cs| {
      ChainDistinct(t, cs, i + 1, j + 1);
      assert t[cs[j]] == cs[j + 1];
    }
  }

  /** A start cluster determines its chain. */
  lemma {:induction false} ChainUnique(t: seq<nat>, a: seq<nat>, b: seq<nat>)
    requires IsChain(t, a) && IsChain(t, b) && a[0] == b[0]
    ensures a == b
  {
    ChainHead(t, a);
    ChainHead(t, b);
    if |a| > 1 {
      ChainTail(t, a);
      ChainTail(t, b);
      ChainUnique(t, a[1..], b[1..]);
      assert a == [a[0]] + a[1..] && b == [b[0]] + b[1..];
    }
  }

  /** The first entry tells whether there is a second cluster, and which. */
  lemma ChainHead(t: seq<nat>, cs: seq<nat>)
    requires IsChain(t, cs)
    ensures |cs| > 1 <==> t[cs[0]] < |t|
    ensures |cs| > 1 ==> t[cs[0]] == cs[1]
  {
    if |cs| > 1 {
      assert t[cs[0]] == cs[1];
    }
  }

  lemma ChainTail(t: seq<nat>, cs: seq<nat>)
    requires IsChain(t, cs) && |cs| > 1
    ensures IsChain(t, cs[1..])
  {
    var d := cs[1..];
    forall i, j | 0 <= i && j == i + 1 < |d|
      ensures t[d[i]] == d[j]
    {
      assert t[cs[i + 1]] == cs[j + 1];
    }
  }

  /** A chain stays a chain when its own entries do. */
  lemma ChainFrame(t: seq<nat>, u: seq<nat>, cs: seq<nat>)
    requires IsChain(t, cs) && |u| == |t|
    requires forall i :: 0 <= i < |cs| ==> u[cs[i]] == t[cs[i]]
    ensures IsChain(u, cs)
  {
  }

  /** Appending a free cluster: mark it, then link it. */
  lemma ChainExtend(t: seq<nat>, cs: seq<nat>, c: nat, eoc: nat)
    requires IsChain(t, cs) && 2 <= c < |t| && t[c] == 0 && eoc >= |t|
    ensures c !in cs
    ensures IsChain(t[c := eoc][cs[|cs| - 1] := c], cs + [c])
  {
    var k := |cs| - 1;
    var u, d := t[c := eoc][cs[k] := c], cs + [c];
    assert c !in cs by {
      forall i | 0 <= i < |cs| ensures cs[i] != c {
        if i < k { assert t[cs[i]] == cs[i + 1]; }
      }
    }
    forall i, j | 0 <= i && j == i + 1 < |d|
      ensures u[d[i]] == d[j]
    {
      if i < k {
        ChainDistinct(t, cs, i, k);
        assert t[cs[i]] == cs[i + 1];
      }
    }
  }

  /** Cutting after element `k`: the head ends there. */
  lemma ChainCut(t: seq<nat>, cs: seq<nat>, k: nat, eoc: nat)
    requires IsChain(t, cs) && k < |cs| && eoc >= |t|
    ensures IsChain(t[cs[k] := eoc], cs[..k + 1])
    ensures k + 1 < |cs| ==> IsChain(t[cs[k] := eoc], cs[k + 1..]) && t[cs[k]] == cs[k + 1]
    ensures forall i :: k < i < |cs| ==> cs[i] != cs[k]
  {
    var u, d := t[cs[k] := eoc], cs[..k + 1];
    forall i, j | 0 <= i && j == i + 1 < |d|
      ensures u[d[i]] == d[j]
    {
      ChainDistinct(t, cs, i, k);
      assert t[cs[i]] == cs[j];
    }
    forall i | k < i < |cs|
      ensures cs[i] != cs[k]
    {
      ChainDistinct(t, cs, k, i);
    }
    if k + 1 < |cs| {
      var e := cs[k + 1..];
      forall i, j | 0 <= i && j == i + 1 < |e|
        ensures u[e[i]] == e[j]
      {
        assert t[cs[k + 1 + i]] == cs[k + 1 + j];
      }
      assert t[cs[k]] == cs[k + 1];
    }
  }

  /** How many clusters from `lo` on are free. */
  function Zeros(t: seq<nat>, lo: nat): (z: nat)
    requires lo <= |t|
    ensures z <= |t| - lo
    decreases |t| - lo
  {
    if lo == |t| then 0 else (if t[lo] == 0 then 1 else 0) + Zeros(t, lo + 1)
  }

  lemma {:induction false} ZerosUpdate(t: seq<nat>, lo: nat, c: nat, val: nat)
    requires lo <= |t| && c < |t|
    ensures Zeros(t[c := val], lo) ==
      Zeros(t, lo) - (if lo <= c && t[c] == 0 then 1 else 0) + (if lo <= c && val == 0 then 1 else 0)
    decreases |t| - lo
  {
    if lo < |t| {
      ZerosUpdate(t, lo + 1, c, val);
    }
  }

  /** Zeros counts the clusters whose entries are free. */
  lemma {:induction false} ZerosIsSize(t: seq<nat>, lo: nat)
    requires lo <= |t|
    ensures Zeros(t, lo) == |set c: nat | lo <= c < |t| && t[c] == 0|
    decreases |t| - lo
  {
    if lo < |t| {
      ZerosIsSize(t, lo + 1);
      var rest := set c: nat | lo + 1 <= c < |t| && t[c] == 0;
      assert (set c: nat | lo <= c < |t| && t[c] == 0) == if t[lo] == 0 then rest + {lo} else rest;
    }
  }

  lemma {:induction false} ZerosNone(t: seq<nat>, lo: nat)
    requires lo <= |t|
    ensures Zeros(t, lo) == 0 <==> forall c :: lo <= c < |t| ==> t[c] != 0
    decreases |t| - lo
  {
    if lo < |t| {
      ZerosNone(t, lo + 1);
    }
  }

  /** What freeing the clusters linked from `c` leaves of a FAT, chain or not: stop at a free entry, fail at entry
      value 1. */
  function Release(t: seq<nat>, c: nat): (r: (seq<nat>, bool))
    requires 2 <= |t|
    ensures |r.0| == |t|
    decreases |t| - Zeros(t, 2)
  {
    if c < 2 || c >= |t| || t[c] == 0 then (t, true)
    else if t[c] == 1 then (t, false)
    else
      ZerosUpdate(t, 2, c, 0);
      Release(t[c := 0], t[c])
  }

  /** `u` is the FAT after freeing some of the clusters linked from `c` in `t`, with `d` the next one to free. */
  ghost predicate ReleaseStage(t: seq<nat>, c: nat, u: seq<nat>, d: nat)
    requires 2 <= |t|
    decreases |t| - Zeros(t, 2)
  {
    || (u == t && d == c)
    || (2 <= c < |t| && t[c] > 1 && (ZerosUpdate(t, 2, c, 0); ReleaseStage(t[c := 0], t[c], u, d)))
  }

  ghost predicate OnTheWay(t: seq<nat>, c: nat, u: seq<nat>)
    requires 2 <= |t|
  {
    exists d :: ReleaseStage(t, c, u, d)
  }

  lemma StageStart(t: seq<nat>, c: nat)
    requires 2 <= |t|
    ensures ReleaseStage(t, c, t, c)
  {
  }

  lemma {:induction false} StageStep(t: seq<nat>, c: nat, u: seq<nat>, d: nat)
    requires 2 <= |t| && ReleaseStage(t, c, u, d)
    requires 2 <= d < |u| && u[d] > 1
    ensures ReleaseStage(t, c, u[d := 0], u[d])
    decreases |t| - Zeros(t, 2)
  {
    if u == t && d == c {
      ZerosUpdate(t, 2, c, 0);
      assert ReleaseStage(t[c := 0], t[c], u[d := 0], u[d]);
    } else {
      ZerosUpdate(t, 2, c, 0);
      StageStep(t[c := 0], t[c], u, d);
    }
  }

  /** The FAT with the clusters of `cs` freed. */
  ghost function Freed(t: seq<nat>, cs: seq<nat>): (u: seq<nat>)
    ensures |u| == |t|
    ensures forall c :: 0 <= c < |t| ==> u[c] == if c in cs then 0 else t[c]
  {
    seq(|t|, c requires 0 <= c < |t| => if c in cs then 0 else t[c])
  }

  /** Freeing the first cluster of a chain leaves the rest of it a chain. */
  lemma ChainAfterFree(t: seq<nat>, cs: seq<nat>)
    requires IsChain(t, cs) && |cs| > 1
    ensures IsChain(t[cs[0] := 0], cs[1..])
  {
    ChainTail(t, cs);
    forall i | 0 <= i < |cs[1..]|
      ensures t[cs[0] := 0][cs[1..][i]] == t[cs[1..][i]]
    {
      ChainDistinct(t, cs, 0, i + 1);
    }
    ChainFrame(t, t[cs[0] := 0], cs[1..]);
  }

  lemma FreedStep(t: seq<nat>, cs: seq<nat>, k: nat)
    requires 0 < k <= |cs| && cs[0] < |t|
    ensures Freed(t[cs[0] := 0], cs[1..k]) == Freed(t, cs[..k])
  {
    assert cs[..k] == [cs[0]] + cs[1..k];
  }

  /** On a well-formed chain, release frees exactly the chain's clusters. */
  lemma {:induction false} ReleaseChain(t: seq<nat>, cs: seq<nat>)
    requires IsChain(t, cs)
    ensures Release(t, cs[0]) == (Freed(t, cs), true)
    decreases |cs|
  {
    ChainHead(t, cs);
    ZerosUpdate(t, 2, cs[0], 0);
    FreedStep(t, cs, |cs|);
    assert cs[..|cs|] == cs && cs[1..|cs|] == cs[1..];
    if |cs| == 1 {
      assert Freed(t[cs[0] := 0], []) == t[cs[0] := 0];
    } else {
      ChainAfterFree(t, cs);
      ReleaseChain(t[cs[0] := 0], cs[1..]);
    }
  }

  /** Every stage of releasing a chain has freed some prefix of it and nothing else. */
  lemma {:induction false} StageOfChain(t: seq<nat>, cs: seq<nat>, u: seq<nat>, d: nat) returns (k: nat)
    requires IsChain(t, cs) && ReleaseStage(t, cs[0], u, d)
    ensures k <= |cs| && u == Freed(t, cs[..k])
    decreases |cs|
  {
    if u == t {
      k := 0;
      assert u == Freed(t, cs[..0]);
    } else {
      ChainHead(t, cs);
      ZerosUpdate(t, 2, cs[0], 0);
      if |cs| == 1 {
        k := 1;
        FreedStep(t, cs, 1);
        assert Freed(t[cs[0] := 0], cs[1..1]) == t[cs[0] := 0];
      } else {
        ChainAfterFree(t, cs);
        k := StageOfChain(t[cs[0] := 0], cs[1..], u, d);
        k := k + 1;
        FreedStep(t, cs, k);
        assert cs[1..][..k - 1] == cs[1..k];
      }
    }
  }
}
