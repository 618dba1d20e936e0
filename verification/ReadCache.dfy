/** The two-way read cache in front of the SPI flash, clock by clock. */
module ReadCache {
  import opened Arith

  type Word = bv32

  const LINES := 256

  /** One 72-bit cell of a way: LRU bit, valid bit, 6-bit tag, high and low word. */
  datatype Line = Line(lru: bool, valid: bool, tag: nat, hi: Word, lo: Word)

  datatype State = RESET | IDLE | RW_CHECK | RW_MISS_1 | RW_MISS_2 | RW_MISS_3 | WAIT

  /** cache_line_wb_src. */
  datatype Source = Flush | Overlay | Low | High

  /** The registers, with the output registers of the two block RAMs. */
  datatype Regs = Regs(
    state: State, sysRdata: Word, sysReady: bool, memAddr: nat, memValid: bool, we0: bool, we1: bool, wbSrc: Source,
    counter: nat, addrLineSel: bool, cacheWay: bool, rd0: Line, rd1: Line)

  /** What the cache samples at a clock edge. */
  datatype Inputs = Inputs(rst: bool, sysAddr: nat, sysValid: bool, memRdata: Word, memReady: bool)

  /** Fields of a byte address: word in line, line, tag. */
  function AddrWord(a: nat): nat { a / 4 % 2 }
  function AddrLine(a: nat): nat { a / 8 % LINES }
  function AddrTag(a: nat): nat { a / 8 / LINES }

  /** A word of the line an address falls in. */
  function WordAddr(a: nat, word: nat): nat { a / 8 * 8 + word * 4 }

  /** What is written into a way: its own and the other way's output, the tag and the memory's word. */
  function WayWrite(src: Source, own: Line, overlayLru: bool, otherLru: bool, tag: nat, rdata: Word): Line
  {
    match src
    case Flush => Line(!otherLru, false, 0, 0, 0)
    case Overlay => own.(lru := overlayLru, valid := true)
    case Low => Line(otherLru, true, tag, own.hi, rdata)
    case High => Line(otherLru, true, tag, rdata, own.lo)
  }

  function Write0(r: Regs, i: Inputs): Line
  {
    WayWrite(r.wbSrc, r.rd0, r.rd1.lru, r.rd1.lru, AddrTag(i.sysAddr), i.memRdata)
  }

  function Write1(r: Regs, i: Inputs): Line
  {
    WayWrite(r.wbSrc, r.rd1, !r.rd0.lru, r.rd0.lru, AddrTag(i.sysAddr), i.memRdata)
  }

  /** addr_line_mux. */
  function LineMux(r: Regs, i: Inputs): nat
  {
    if r.addrLineSel then r.counter else AddrLine(i.sysAddr)
  }

  function Hit(l: Line, a: nat): bool
  {
    l.tag == AddrTag(a) && l.valid
  }

  function Pick(l: Line, word: nat): Word
  {
    if word == 0 then l.lo else l.hi
  }

  function HalfSource(word: nat): Source
  {
    if word == 0 then Low else High
  }

  /** The clocked block: every register's next value, from the values before the edge. */
  function Next(r: Regs, i: Inputs): (n: Regs)
    requires r.counter < LINES
    ensures n.counter < LINES && n.rd0 == r.rd0 && n.rd1 == r.rd1
  {
    var w := AddrWord(i.sysAddr);
    if i.rst then
      r.(state := RESET, sysReady := false, memValid := false, we0 := false, we1 := false, wbSrc := Flush,
         counter := 0xFF, addrLineSel := true)
    else match r.state
      case RESET =>
        r.(we0 := true, we1 := true, counter := if r.counter == 0 then 0xFF else r.counter - 1,
           state := if r.counter == 0 then IDLE else RESET)
      case IDLE =>
        r.(addrLineSel := false, we0 := false, we1 := false, sysReady := false,
           state := if i.sysValid then RW_CHECK else IDLE)
      case RW_CHECK =>
        if Hit(r.rd0, i.sysAddr) then
          r.(sysRdata := Pick(r.rd0, w), sysReady := true, we0 := true, we1 := false, wbSrc := Overlay, state := WAIT)
        else if Hit(r.rd1, i.sysAddr) then
          r.(sysRdata := Pick(r.rd1, w), sysReady := true, we0 := false, we1 := true, wbSrc := Overlay, state := WAIT)
        else
          r.(memAddr := WordAddr(i.sysAddr, 1 - w), memValid := true, state := RW_MISS_1,
              cacheWay := r.rd0.lru != r.rd1.lru)
      case RW_MISS_1 =>
        if i.memReady then
          r.(wbSrc := HalfSource(1 - w), we0 := r.cacheWay || r.we0, we1 := !r.cacheWay || r.we1,
             memValid := false, state := RW_MISS_2)
        else r
      case RW_MISS_2 =>
        var n := r.(we0 := false, we1 := false);
        if i.memReady then n else n.(memAddr := WordAddr(i.sysAddr, w), memValid := true, state := RW_MISS_3)
      case RW_MISS_3 =>
        if i.memReady then
          r.(wbSrc := HalfSource(w), we0 := r.cacheWay || r.we0, we1 := !r.cacheWay || r.we1,
             sysReady := true, sysRdata := i.memRdata, state := WAIT)
        else r
      case WAIT =>
        r.(we0 := false, we1 := false, memValid := false, sysReady := false, state := IDLE)
  }

  /** A block RAM after an edge: written if enabled. */
  function Stored(cells: seq<Line>, en: bool, we: bool, at: nat, wr: Line): seq<Line>
    requires at < |cells|
  {
    if en && we then cells[at := wr] else cells
  }

  /** Its output register: what it wrote, or what it read. */
  function Output(rd: Line, cells: seq<Line>, en: bool, we: bool, at: nat, wr: Line): Line
    requires at < |cells|
  {
    if !en then rd else if we then wr else cells[at]
  }

  /** Registers and both ways. */
  datatype Snap = Snap(r: Regs, c0: seq<Line>, c1: seq<Line>)

  predicate Sized(s: Snap)
  {
    |s.c0| == |s.c1| == LINES && s.r.counter < LINES
  }

  /** One clock edge. */
  function Step(s: Snap, i: Inputs): (n: Snap)
    requires Sized(s)
    ensures Sized(n)
  {
    hide Next;
    hide WayWrite;
    var at, en := LineMux(s.r, i), !i.rst;
    var w0, w1 := Write0(s.r, i), Write1(s.r, i);
    Snap(Next(s.r, i).(rd0 := Output(s.r.rd0, s.c0, en, s.r.we0, at, w0),
        rd1 := Output(s.r.rd1, s.c1, en, s.r.we1, at, w1)),
         Stored(s.c0, en, s.r.we0, at, w0), Stored(s.c1, en, s.r.we1, at, w1))
  }

  class Cache {
    const way0: array<Line>
    const way1: array<Line>
    var r: Regs

    predicate Valid()
      reads this, way0, way1
    {
      way0 != way1 && Sized(View())
    }

    function View(): Snap
      reads this, way0, way1
    {
      Snap(r, way0[..], way1[..])
    }

    /** Power-up: anything may be in registers and block RAM. */
    constructor (r: Regs, cells: seq<Line>)
      requires r.counter < LINES && |cells| == LINES
      ensures Valid() && View() == Snap(r, cells, cells) && fresh(way0) && fresh(way1)
    {
      this.r := r;
      way0 := new Line[LINES](i requires 0 <= i < LINES => cells[i]);
      way1 := new Line[LINES](i requires 0 <= i < LINES => cells[i]);
    }

    /** One clock edge: both block RAMs and all registers at once. */
    method Clock(i: Inputs)
      requires Valid()
      modifies this, way0, way1
      ensures Valid() && View() == Step(old(View()), i)
    {
      hide Next;
      hide WayWrite;
      var at, w0, w1 := LineMux(r, i), Write0(r, i), Write1(r, i);
      var n := Next(r, i);
      if !i.rst {
        var rd0, rd1 := way0[at], way1[at];
        if r.we0 {
          way0[at] := w0;
          rd0 := w0;
        }
        if r.we1 {
          way1[at] := w1;
          rd1 := w1;
        }
        n := n.(rd0 := rd0, rd1 := rd1);
      }
      r := n;
    }
  }

  /** What passed the cache's ports in one clock: inputs, and outputs before the edge. `taken`: the memory's answer was
      accepted. */
  datatype Sample = Sample(i: Inputs, sysReady: bool, sysRdata: Word, memValid: bool, memAddr: nat, taken: bool)

  /** The environment keeps its side: requests and their address are held until answered, an answer from the memory is
      the word asked for, and it stays up for the clock after it was accepted. */
  predicate Behaves(mem: nat -> Word, p: Sample, q: Sample)
  {
    && (p.i.sysValid && !p.sysReady && !p.i.rst ==> q.i.sysValid && q.i.sysAddr == p.i.sysAddr)
    && q.taken == (q.memValid && q.i.memReady && !(p.memValid && p.i.memReady))
    && (q.taken ==> q.i.memRdata == mem(q.memAddr))
    && (p.taken ==> q.i.memRdata == p.i.memRdata)
  }

  /** Both words of a line are the memory's. */
  predicate Full(mem: nat -> Word, l: Line, line: nat)
  {
    l.valid ==> l.lo == mem((l.tag * LINES + line) * 8) && l.hi == mem((l.tag * LINES + line) * 8 + 4)
  }

  /** No tag is in both ways. */
  predicate Different(a: Line, b: Line)
  {
    a.valid && b.valid ==> a.tag != b.tag
  }

  /** Outside a fill: every line is the memory's, every tag in one way at most. */
  predicate Coherent(mem: nat -> Word, s: Snap)
    requires Sized(s)
  {
    forall k :: 0 <= k < LINES ==> Full(mem, s.c0[k], k) && Full(mem, s.c1[k], k) && Different(s.c0[k], s.c1[k])
  }

  /** During a fill: all but the line at `at`. */
  predicate CoherentBut(mem: nat -> Word, s: Snap, at: nat)
    requires Sized(s)
  {
    forall k :: 0 <= k < LINES && k != at ==>
      Full(mem, s.c0[k], k) && Full(mem, s.c1[k], k) && Different(s.c0[k], s.c1[k])
  }

  /** The reset sweep has emptied the lines above `low`, except the last. */
  predicate Swept(s: Snap, low: int)
    requires Sized(s)
  {
    forall k :: 0 <= k < LINES - 1 && low < k ==> !s.c0[k].valid && !s.c1[k].valid
  }

  /** The way being filled holds the address's tag and its other word; the other way does not hold the tag. */
  predicate HalfFilled(mem: nat -> Word, filling: Line, other: Line, a: nat)
  {
    && filling.valid && filling.tag == AddrTag(a)
    && Pick(filling, 1 - AddrWord(a)) == mem(WordAddr(a, 1 - AddrWord(a)))
    && Full(mem, other, AddrLine(a)) && !Hit(other, a)
  }

  /** The block RAMs have put out the line of the address. */
  predicate Shown(s: Snap, a: nat)
    requires Sized(s)
  {
    s.r.rd0 == s.c0[AddrLine(a)] && s.r.rd1 == s.c1[AddrLine(a)]
  }

  /** A request is under way, and nothing is being written. */
  predicate Serving(p: Sample, s: Snap)
  {
    p.i.sysValid && !p.sysReady && !p.i.rst && !s.r.addrLineSel
  }

  /** The invariant, by state; `p` is the clock before. */
  predicate Inv(mem: nat -> Word, p: Sample, s: Snap)
    requires Sized(s)
  {
    var a, r := p.i.sysAddr, s.r;
    var at := AddrLine(a);
    var filling := if r.cacheWay then s.c0[at] else s.c1[at];
    var other := if r.cacheWay then s.c1[at] else s.c0[at];
    && (r.sysReady <==> r.state == WAIT)
    && match r.state
      case RESET =>
        && r.addrLineSel && r.wbSrc == Flush && !r.memValid
        && r.we0 == r.we1 && (if r.we0 then Swept(s, r.counter) else r.counter == LINES - 1)
      case IDLE =>
        && !r.memValid
        && (if r.addrLineSel then r.wbSrc == Flush && r.we0 && r.we1 && r.counter == LINES - 1 && Swept(s, -1)
            else !r.we0 && !r.we1 && Coherent(mem, s))
      case RW_CHECK =>
        && Serving(p, s) && !r.we0 && !r.we1 && !r.memValid && Coherent(mem, s)
        && (Shown(s, a) || (!r.rd0.valid && !r.rd1.valid && !s.c0[at].valid && !s.c1[at].valid))
      case RW_MISS_1 =>
        && Serving(p, s) && !r.we0 && !r.we1 && Coherent(mem, s) && Shown(s, a)
        && r.memValid && r.memAddr == WordAddr(a, 1 - AddrWord(a)) && !(p.memValid && p.i.memReady)
        && !Hit(s.c0[at], a) && !Hit(s.c1[at], a)
      case RW_MISS_2 =>
        && Serving(p, s) && Shown(s, a) && !r.memValid
        && (if r.we0 || r.we1 then
              && r.we0 == r.cacheWay && r.we1 == !r.cacheWay && r.wbSrc == HalfSource(1 - AddrWord(a))
                 && Coherent(mem, s)
              && p.taken && p.i.memRdata == mem(WordAddr(a, 1 - AddrWord(a))) && !Hit(s.c0[at], a) && !Hit(s.c1[at], a)
            else CoherentBut(mem, s, at) && HalfFilled(mem, filling, other, a))
      case RW_MISS_3 =>
        && Serving(p, s) && Shown(s, a) && !r.we0 && !r.we1 && CoherentBut(mem, s, at)
           && HalfFilled(mem, filling, other, a)
        && r.memValid && r.memAddr == WordAddr(a, AddrWord(a)) && !(p.memValid && p.i.memReady)
      case WAIT =>
        && Serving(p, s) && Shown(s, a) && r.sysRdata == mem(WordAddr(a, AddrWord(a)))
        && (if r.wbSrc == Overlay then Coherent(mem, s)
             && (if r.we0 then Hit(s.c0[at], a) && !r.we1 else r.we1 && Hit(s.c1[at], a))
            else
              && r.we0 == r.cacheWay && r.we1 == !r.cacheWay && r.wbSrc == HalfSource(AddrWord(a))
              && CoherentBut(mem, s, at) && HalfFilled(mem, filling, other, a)
              && p.taken && p.i.memRdata == mem(WordAddr(a, AddrWord(a))))
  }

  /** The sample shows the outputs before the edge. */
  predicate Observes(q: Sample, s: Snap)
  {
    q.sysReady == s.r.sysReady && q.sysRdata == s.r.sysRdata && q.memValid == s.r.memValid && q.memAddr == s.r.memAddr
  }

  lemma TagLine(a: nat)
    ensures AddrTag(a) * LINES + AddrLine(a) == a / 8 && AddrLine(a) < LINES
  {
    DivModFacts(a / 8, LINES);
  }

  lemma StepReset(mem: nat -> Word, p: Sample, s: Snap, q: Sample)
    requires Sized(s) && Observes(q, s) && q.i.rst
    ensures Inv(mem, q, Step(s, q.i))
  {
  }

  lemma StepSweep(mem: nat -> Word, p: Sample, s: Snap, q: Sample)
    requires Sized(s) && Inv(mem, p, s) && Observes(q, s) && Behaves(mem, p, q) && !q.i.rst && s.r.state == RESET
    ensures Inv(mem, q, Step(s, q.i))
  {
    TagLine(q.i.sysAddr);
  }

  lemma StepIdle(mem: nat -> Word, p: Sample, s: Snap, q: Sample)
    requires Sized(s) && Inv(mem, p, s) && Observes(q, s) && Behaves(mem, p, q) && !q.i.rst && s.r.state == IDLE
    ensures Inv(mem, q, Step(s, q.i))
  {
    TagLine(q.i.sysAddr);
  }

  lemma StepCheck(mem: nat -> Word, p: Sample, s: Snap, q: Sample)
    requires Sized(s) && Inv(mem, p, s) && Observes(q, s) && Behaves(mem, p, q) && !q.i.rst && s.r.state == RW_CHECK
    ensures Inv(mem, q, Step(s, q.i))
  {
    TagLine(q.i.sysAddr);
  }

  lemma StepMiss1(mem: nat -> Word, p: Sample, s: Snap, q: Sample)
    requires Sized(s) && Inv(mem, p, s) && Observes(q, s) && Behaves(mem, p, q) && !q.i.rst && s.r.state == RW_MISS_1
    ensures Inv(mem, q, Step(s, q.i))
  {
    TagLine(q.i.sysAddr);
  }

  lemma StepMiss2(mem: nat -> Word, p: Sample, s: Snap, q: Sample)
    requires Sized(s) && Inv(mem, p, s) && Observes(q, s) && Behaves(mem, p, q) && !q.i.rst && s.r.state == RW_MISS_2
    ensures Inv(mem, q, Step(s, q.i))
  {
    hide Full;
    TagLine(q.i.sysAddr);
  }

  lemma StepMiss3(mem: nat -> Word, p: Sample, s: Snap, q: Sample)
    requires Sized(s) && Inv(mem, p, s) && Observes(q, s) && Behaves(mem, p, q) && !q.i.rst && s.r.state == RW_MISS_3
    ensures Inv(mem, q, Step(s, q.i))
  {
    TagLine(q.i.sysAddr);
  }

  /** Updating the LRU bit of a valid line changes nothing else. */
  lemma StillFull(mem: nat -> Word, l: Line, n: Line, at: nat)
    requires Full(mem, l, at) && (n == l || (l.valid && n == l.(lru := n.lru)))
    ensures Full(mem, n, at)
  {
  }

  /** A line with the address's tag and both its words. */
  lemma FilledLine(mem: nat -> Word, a: nat, l: Line)
    requires l.tag == AddrTag(a) && Pick(l, AddrWord(a)) == mem(WordAddr(a, AddrWord(a)))
    requires Pick(l, 1 - AddrWord(a)) == mem(WordAddr(a, 1 - AddrWord(a)))
    ensures Full(mem, l, AddrLine(a))
  {
    TagLine(a);
  }

  lemma StepWait(mem: nat -> Word, p: Sample, s: Snap, q: Sample)
    requires Sized(s) && Inv(mem, p, s) && Observes(q, s) && Behaves(mem, p, q) && !q.i.rst && s.r.state == WAIT
    ensures Inv(mem, q, Step(s, q.i))
  {
    var a, n := q.i.sysAddr, Step(s, q.i);
    var at := AddrLine(a);
    hide Full;
    if s.r.wbSrc == Overlay {
      assert Full(mem, s.c0[at], at) && Full(mem, s.c1[at], at);
      StillFull(mem, s.c0[at], n.c0[at], at);
      StillFull(mem, s.c1[at], n.c1[at], at);
    } else {
      FilledLine(mem, a, if s.r.cacheWay then n.c0[at] else n.c1[at]);
    }
  }

  /** Every clock keeps the invariant, whatever the environment does within its rules. */
  lemma StepKeeps(mem: nat -> Word, p: Sample, s: Snap, q: Sample)
    requires Sized(s) && Inv(mem, p, s) && Observes(q, s) && Behaves(mem, p, q)
    ensures Inv(mem, q, Step(s, q.i))
  {
    hide Inv;
    hide Step;
    hide Behaves;
    if q.i.rst {
      StepReset(mem, p, s, q);
    } else {
      match s.r.state
      case RESET => StepSweep(mem, p, s, q);
      case IDLE => StepIdle(mem, p, s, q);
      case RW_CHECK => StepCheck(mem, p, s, q);
      case RW_MISS_1 => StepMiss1(mem, p, s, q);
      case RW_MISS_2 => StepMiss2(mem, p, s, q);
      case RW_MISS_3 => StepMiss3(mem, p, s, q);
      case WAIT => StepWait(mem, p, s, q);
    }
  }

  /** The word of the line is the word at the address, its last two bits aside. */
  lemma WordAtAddress(a: nat)
    ensures WordAddr(a, AddrWord(a)) == a - a % 4
  {
    DivModFacts(a, 4);
    DivModFacts(a / 4, 2);
    DivDiv(a, 4, 2);
  }

  /** sys_ready answers the request held since the clock before, with the memory's word. */
  predicate Answers(mem: nat -> Word, p: Sample, q: Sample)
  {
    q.sysReady ==>
      && p.i.sysValid && !p.sysReady && q.i.sysAddr == p.i.sysAddr
      && q.sysRdata == mem(q.i.sysAddr - q.i.sysAddr % 4)
      && (q.i.sysAddr % 4 == 0 ==> q.sysRdata == mem(q.i.sysAddr))
  }

  lemma InvAnswers(mem: nat -> Word, p: Sample, s: Snap, q: Sample)
    requires Sized(s) && Inv(mem, p, s) && Observes(q, s) && Behaves(mem, p, q)
    ensures Answers(mem, p, q)
  {
    WordAtAddress(q.i.sysAddr);
  }

  /** The environment has kept its side in the first `n` clocks of a trace. */
  predicate BehavesUpTo(mem: nat -> Word, trace: seq<Sample>, n: nat)
    requires n <= |trace|
  {
    forall k :: 0 < k < n ==> Behaves(mem, trace[k - 1], trace[k])
  }

  /** Every answer given while the environment kept its side is right. */
  predicate AllRight(mem: nat -> Word, trace: seq<Sample>)
  {
    forall k :: 0 < k < |trace| && BehavesUpTo(mem, trace, k + 1) ==> Answers(mem, trace[k - 1], trace[k])
  }

  lemma OneMore(mem: nat -> Word, trace: seq<Sample>, q: Sample)
    requires AllRight(mem, trace)
    requires trace != [] && BehavesUpTo(mem, trace, |trace|) && Behaves(mem, trace[|trace| - 1], q) ==>
      Answers(mem, trace[|trace| - 1], q)
    ensures AllRight(mem, trace + [q])
    ensures trace != [] && BehavesUpTo(mem, trace + [q], |trace| + 1) ==>
      BehavesUpTo(mem, trace, |trace|) && Behaves(mem, trace[|trace| - 1], q)
  {
    hide Behaves;
    hide Answers;
    var more, n := trace + [q], |trace|;
    forall k | 0 < k < |more| && BehavesUpTo(mem, more, k + 1)
      ensures Answers(mem, more[k - 1], more[k])
    {
      forall j | 0 < j < if k < n then k + 1 else n
        ensures Behaves(mem, trace[j - 1], trace[j])
      {
        assert Behaves(mem, more[j - 1], more[j]);
      }
      if k < n {
        assert BehavesUpTo(mem, trace, k + 1);
      } else {
        assert Behaves(mem, more[n - 1], more[n]);
      }
    }
    if n > 0 && BehavesUpTo(mem, more, n + 1) {
      forall j | 0 < j < n
        ensures Behaves(mem, trace[j - 1], trace[j])
      {
        assert Behaves(mem, more[j - 1], more[j]);
      }
      assert Behaves(mem, more[n - 1], more[n]);
    }
  }

  /** From a reset on, for every sequence of requests, resets and memory latencies: as long as the environment has kept
      its side, every answer is right. */
  method Run(cache: Cache, inputs: seq<Inputs>, ghost mem: nat -> Word) returns (trace: seq<Sample>)
    requires cache.Valid() && |inputs| > 0 && inputs[0].rst
    modifies cache, cache.way0, cache.way1
    ensures |trace| == |inputs| && forall k :: 0 <= k < |trace| ==> trace[k].i == inputs[k]
    ensures AllRight(mem, trace)
  {
    hide Inv;
    hide Step;
    hide Behaves;
    hide Answers;
    hide AllRight;
    hide BehavesUpTo;
    trace := [];
    NothingYet(mem);
    for n := 0 to |inputs|
      invariant cache.Valid() && |trace| == n && forall k :: 0 <= k < n ==> trace[k].i == inputs[k]
      invariant n > 0 && BehavesUpTo(mem, trace, n) ==> Inv(mem, trace[n - 1], cache.View())
      invariant AllRight(mem, trace)
    {
      var i, r := inputs[n], cache.r;
      var earlier := n > 0 && trace[n - 1].memValid && trace[n - 1].i.memReady;
      var q := Sample(i, r.sysReady, r.sysRdata, r.memValid, r.memAddr, r.memValid && i.memReady && !earlier);
      ghost var s := cache.View();
      cache.Clock(i);
      if n == 0 {
        StepReset(mem, q, s, q);
      } else if BehavesUpTo(mem, trace, n) && Behaves(mem, trace[n - 1], q) {
        InvAnswers(mem, trace[n - 1], s, q);
        StepKeeps(mem, trace[n - 1], s, q);
      }
      OneMore(mem, trace, q);
      trace := trace + [q];
    }
  }

  lemma NothingYet(mem: nat -> Word)
    ensures AllRight(mem, [])
  {
  }
}

