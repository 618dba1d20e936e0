/** The Z80/RISC-V I/O handshake: cpm_io clock by clock, between a Z80 and the firmware's polling loop. */
module Handshake {
  import opened Bytes

  datatype Status = STAT_IDLE | STAT_WRITE | STAT_READ | STAT_READY

  /** Registers the Z80 reaches without the RISC-V: drive, track, sector and DMA address. */
  datatype DiskRegs = DiskRegs(drive: Byte, track: Byte, sectorLsb: Byte, sectorMsb: Byte, dmaLsb: Byte, dmaMsb: Byte)

  /** The registers of cpm_io, colours aside. */
  datatype Dev = Dev(status: Status, ready: bool, z80di: Byte, adr: Byte, out: Byte, console: Byte, disk: DiskRegs)

  /** A Z80 I/O request, as its bus shows it: none, IN from a port, OUT of a byte to a port. */
  datatype Request = NoRequest | In(port: Byte) | Out(port: Byte, data: Byte)

  /** A RISC-V bus access to cpm_io. */
  datatype Bus = NoAccess | Rd(reg: nat) | Wr(reg: nat, value: Byte)

  predicate IsRegister(port: Byte)
  {
    port in {10, 11, 12, 15, 16, 17}
  }

  /** Ports served in hardware: registers, and the console status for IN. */
  predicate InHardware(q: Request)
  {
    q != NoRequest && (IsRegister(q.port) || (q.In? && q.port == 0))
  }

  function RegisterAt(d: Dev, port: Byte): Byte
  {
    match port
    case 0 => d.console
    case 10 => d.disk.drive
    case 11 => d.disk.track
    case 12 => d.disk.sectorLsb
    case 15 => d.disk.dmaLsb
    case 16 => d.disk.dmaMsb
    case _ => d.disk.sectorMsb
  }

  function SetRegister(r: DiskRegs, port: Byte, v: Byte): DiskRegs
  {
    match port
    case 10 => r.(drive := v)
    case 11 => r.(track := v)
    case 12 => r.(sectorLsb := v)
    case 15 => r.(dmaLsb := v)
    case 16 => r.(dmaMsb := v)
    case _ => r.(sectorMsb := v)
  }

  /** The RISC-V half of the clocked block. */
  function AfterBus(d: Dev, bus: Bus): Dev
  {
    match bus
    case NoAccess => d
    case Wr(reg, v) =>
      if reg == 0 then d.(console := v)
      else if reg == 10 then d.(z80di := v, status := STAT_READY)
      else d
    case Rd(reg) => if reg == 9 then d.(status := STAT_READY) else d
  }

  /** The whole clocked block; tests see the values before the edge, and later assignments win. */
  function Clocked(d: Dev, q: Request, bus: Bus): Dev
  {
    var n := AfterBus(d, bus);
    var m := match q
      case NoRequest => n.(status := STAT_IDLE)
      case In(port) =>
        if InHardware(q) then n.(z80di := RegisterAt(d, port), status := STAT_READY)
        else if d.status == STAT_IDLE then n.(adr := port, status := STAT_READ)
        else n
      case Out(port, v) =>
        if InHardware(q) then n.(disk := SetRegister(n.disk, port, v), status := STAT_READY)
        else if d.status == STAT_IDLE then n.(adr := port, out := v, status := STAT_WRITE)
        else n;
    m.(ready := d.status == STAT_READY)
  }

  /** What a RISC-V read returns. */
  function ReadBack(d: Dev, reg: nat): Byte
  {
    match reg
    case 0 => d.console
    case 1 => d.disk.drive
    case 2 => d.disk.track
    case 3 => d.disk.sectorLsb
    case 5 => d.disk.dmaLsb
    case 6 => d.disk.dmaMsb
    case 7 => d.disk.sectorMsb
    case 8 => d.adr
    case 9 => d.out
    case _ => 0
  }

  /** The Z80: between requests for so many clocks, or holding one until it sees ready. */
  datatype Z80 = Resting(clocks: nat) | Asking(q: Request)

  /** Where the firmware is in its polling loop: about to read z80_io_state; updating the console status; about to read
      z80_io_adr and z80_out_data for an OUT; in fdco_out, reading the registers and then running the command; about to
      read z80_io_adr for an IN, handling it, and about to write z80_in_data. */
  datatype Pc =
    | Poll | Console(v: Byte)
    | AdrW | DataW(port: Byte) | ReadRegs(cmd: Byte, got: seq<Byte>) | RunCommand(cmd: Byte, regs: DiskRegs)
    | AdrR | Handle(port: Byte) | WriteIn(v: Byte)

  /** `second`: the bus access of this place has been up for one clock edge already, with what it read. */
  datatype Rv = Rv(pc: Pc, second: bool, seen: Byte, seenStatus: Status)

  /** A request the Z80 has made, with the disk registers as they stood then. */
  datatype Access = Access(q: Request, regs: DiskRegs)

  /** A disk command fdco_out has run: for which access, with what, and the status it left in gDiskStatus. */
  datatype Command = Command(job: nat, cmd: Byte, regs: DiskRegs, status: Byte)

  /** The whole system, with its history: all requests so far, what the RISC-V did for the latest one, the access whose
      command is being run, and the last command run. */
  datatype Sys = Sys(dev: Dev, z: Z80, rv: Rv, diskStatus: Byte, accs: seq<Access>, served: Option<Byte>, job: nat,
      last: Option<Command>)

  /** What is left open in a clock: what the Z80 does next, whether and how long the firmware uses the bus, what its
      handlers answer. */
  datatype Choice = Choice(start: Request, finish: bool, go: bool, again: bool, console: Option<Byte>, answer: bool,
      value: Byte)

  function Asked(z: Z80): Request
  {
    if z.Asking? then z.q else NoRequest
  }

  /** The order fdco_out reads the registers in. */
  const REG_ORDER: seq<nat> := [1, 2, 7, 3, 6, 5]

  function RegsFrom(got: seq<Byte>): DiskRegs
    requires |got| == 6
  {
    DiskRegs(got[0], got[1], got[3], got[2], got[5], got[4])
  }

  function BusOf(pc: Pc): Bus
  {
    match pc
    case Poll => Rd(11)
    case Console(v) => Wr(0, v)
    case AdrW => Rd(8)
    case DataW(_) => Rd(9)
    case ReadRegs(_, got) => if |got| < 6 then Rd(REG_ORDER[|got|]) else NoAccess
    case AdrR => Rd(8)
    case WriteIn(v) => Wr(10, v)
    case _ => NoAccess
  }

  /** The access the firmware has on the bus in this clock. */
  function Presented(rv: Rv, c: Choice): Bus
  {
    if rv.second || c.go then BusOf(rv.pc) else NoAccess
  }

  /** The value a bus access delivers to the firmware: that of its first clock edge. */
  function Latched(rv: Rv, d: Dev): (Byte, Status)
  {
    if rv.second then (rv.seen, rv.seenStatus)
    else (match BusOf(rv.pc) case Rd(reg) => ReadBack(d, reg) case _ => 0, d.status)
  }

  /** Where the firmware goes after a bus access. */
  function After(pc: Pc, v: Byte, st: Status): Pc
  {
    match pc
    case Poll => (match st case STAT_WRITE => AdrW case STAT_READ => AdrR case _ => Poll)
    case AdrW => DataW(v)
    case AdrR => Handle(v)
    case DataW(port) => if port == 13 then ReadRegs(v, []) else Poll
    case ReadRegs(cmd, got) => if |got| == 5 then RunCommand(cmd, RegsFrom(got + [v])) else ReadRegs(cmd, got + [v])
    case _ => Poll
  }

  /** The firmware's part of a clock. */
  function RvTick(s: Sys, c: Choice): Rv
  {
    var rv := s.rv;
    match rv.pc
    case RunCommand(_, _) => if c.go then rv.(pc := Poll) else rv
    case Handle(port) =>
      if !c.go then rv
      else if port == 14 then rv.(pc := WriteIn(s.diskStatus))
      else if port == 13 || !c.answer then rv.(pc := Poll)
      else rv.(pc := WriteIn(c.value))
    case _ =>
      if Presented(rv, c) == NoAccess
        then (if rv.pc == Poll && c.console.Some? then rv.(pc := Console(c.console.value)) else rv)
      else
        var (v, st) := Latched(rv, s.dev);
        if !rv.second && c.again then rv.(second := true, seen := v, seenStatus := st)
        else rv.(second := false, pc := After(rv.pc, v, st))
  }

  predicate Completes(s: Sys, c: Choice)
  {
    s.z.Asking? && s.dev.ready && c.finish
  }

  /** A new request goes up after two clocks without one: this one, and at least one before it. */
  predicate Starts(s: Sys, c: Choice)
  {
    s.z.Resting? && s.z.clocks >= 1 && c.start != NoRequest
  }

  /** One clock of everything. */
  function Tick(s: Sys, c: Choice): Sys
  {
    Around(s, c, Clocked(s.dev, Asked(s.z), Presented(s.rv, c)))
  }

  /** One clock of everything around the interface, which comes out of it as `dev`. */
  function Around(s: Sys, c: Choice, dev: Dev): Sys
  {
    var bus := Presented(s.rv, c);
    var ran := s.rv.pc.RunCommand? && c.go;
    Sys(
      dev,
      if s.z.Asking? then (if Completes(s, c) then Resting(0) else s.z)
      else if Starts(s, c) then Asking(c.start) else Resting(s.z.clocks + 1),
      RvTick(s, c),
      if ran then c.value else s.diskStatus,
      if Starts(s, c) then s.accs + [Access(c.start, dev.disk)] else s.accs,
      if Starts(s, c) then None
      else (match bus case Rd(9) => Some(s.dev.out) case Wr(10, v) => Some(v) case _ => s.served),
      if s.rv.pc.DataW? && bus != NoAccess && |s.accs| > 0 then |s.accs| - 1 else s.job,
      if ran then Some(Command(s.job, s.rv.pc.cmd, s.rv.pc.regs, c.value)) else s.last)
  }

  /** After reset, with the Z80 not yet asking. */
  predicate Initial(s: Sys)
  {
    && s.dev.status == STAT_IDLE && s.z == Resting(1) && s.rv.pc == Poll && !s.rv.second
    && s.accs == [] && s.served == None && s.last == None
  }

  predicate Is13(a: Access)
  {
    a.q.Out? && a.q.port == 13
  }

  /** The disk registers behind an access. */
  function RegsAfter(a: Access): DiskRegs
  {
    if !a.q.Out? then a.regs
    else if a.q.port == 10 then a.regs.(drive := a.q.data)
    else if a.q.port == 11 then a.regs.(track := a.q.data)
    else if a.q.port == 12 then a.regs.(sectorLsb := a.q.data)
    else if a.q.port == 15 then a.regs.(dmaLsb := a.q.data)
    else if a.q.port == 16 then a.regs.(dmaMsb := a.q.data)
    else if a.q.port == 17 then a.regs.(sectorMsb := a.q.data)
    else a.regs
  }

  /** What the Z80 may rely on when it sees ready. */
  predicate Safe(s: Sys)
  {
    s.z.Asking? && s.dev.ready ==>
      var q, n, disk := s.z.q, |s.accs|, s.dev.disk;
      var served := q != NoRequest && q.port !in {10, 11, 12, 15, 16, 17} && !(q.In? && q.port == 0);
      && n > 0 && s.accs[n - 1].q == q
      && (served ==> s.served.Some?)
      && (served && q.In? ==> s.dev.z80di == s.served.value)
      && (served && q.Out? ==> s.served.value == q.data)
      && (q.In? && q.port == 10 ==> s.dev.z80di == disk.drive)
      && (q.In? && q.port == 11 ==> s.dev.z80di == disk.track)
      && (q.In? && q.port == 12 ==> s.dev.z80di == disk.sectorLsb)
      && (q.In? && q.port == 15 ==> s.dev.z80di == disk.dmaLsb)
      && (q.In? && q.port == 16 ==> s.dev.z80di == disk.dmaMsb)
      && (q.In? && q.port == 17 ==> s.dev.z80di == disk.sectorMsb)
      && (q.Out? && q.port == 10 ==> disk.drive == q.data)
      && (q.Out? && q.port == 11 ==> disk.track == q.data)
      && (q.Out? && q.port == 12 ==> disk.sectorLsb == q.data)
      && (q.Out? && q.port == 15 ==> disk.dmaLsb == q.data)
      && (q.Out? && q.port == 16 ==> disk.dmaMsb == q.data)
      && (q.Out? && q.port == 17 ==> disk.sectorMsb == q.data)
      && disk == RegsAfter(s.accs[n - 1])
      && (forall k :: 0 < k < n ==> s.accs[k].regs == RegsAfter(s.accs[k - 1]))
      && (q.In? && q.port == 14 && n > 1 && Is13(s.accs[n - 2]) ==>
            && s.last.Some? && s.last.value.job == n - 2
            && s.last.value.cmd == s.accs[n - 2].q.data && s.last.value.regs == s.accs[n - 2].regs
            && s.dev.z80di == s.last.value.status)
  }

  predicate InFirmware(q: Request)
  {
    q != NoRequest && !InHardware(q)
  }

  /** Device, Z80 and what has been served agree. */
  predicate DeviceOk(s: Sys)
  {
    var d := s.dev;
    match s.z
    case Resting(k) =>
      if k == 0 then d.status == STAT_READY && d.ready else d.status == STAT_IDLE && (k >= 2 ==> !d.ready)
    case Asking(q) =>
      && q != NoRequest && |s.accs| > 0 && s.accs[|s.accs| - 1].q == q
      && (d.ready ==> d.status == STAT_READY)
      && (d.status != STAT_READY ==> s.served == None)
      && (d.status == STAT_WRITE ==> InFirmware(q) && q.Out? && d.adr == q.port && d.out == q.data)
      && (d.status == STAT_READ ==> InFirmware(q) && q.In? && d.adr == q.port)
      && (d.status == STAT_READY && InFirmware(q) ==>
            s.served.Some?
              && (if q.In? then d.z80di == s.served.value else d.adr == q.port && d.out == s.served.value == q.data))
      && (d.status == STAT_READY && IsRegister(q.port) ==>
            if q.In? then d.z80di == RegisterAt(d, q.port) else RegisterAt(d, q.port) == q.data)
  }

  /** The firmware acts on a state of the handshake that still holds. */
  predicate FirmwareOk(s: Sys)
  {
    var d, rv := s.dev, s.rv;
    match rv.pc
    case Poll => rv.second ==> (rv.seenStatus in {STAT_WRITE, STAT_READ} ==> d.status == rv.seenStatus)
    case Console(_) => true
    case AdrW => d.status == STAT_WRITE && (rv.second ==> rv.seen == d.adr)
    case DataW(port) =>
      && s.z.Asking? && InFirmware(s.z.q) && s.z.q.Out? && port == s.z.q.port
      && (if rv.second then d.status == STAT_READY && !d.ready && rv.seen == s.z.q.data else d.status == STAT_WRITE)
    case ReadRegs(_, got) => |got| < 6
    case RunCommand(_, _) => !rv.second
    case AdrR => d.status == STAT_READ && (rv.second ==> rv.seen == d.adr)
    case Handle(port) => d.status == STAT_READ && port == d.adr && !rv.second
    case WriteIn(v) =>
      && s.z.Asking? && InFirmware(s.z.q) && s.z.q.In? && (s.z.q.port == 14 ==> v == s.diskStatus)
      && (if rv.second then d.status == STAT_READY && !d.ready else d.status == STAT_READ)
  }

  predicate SetsRegister(a: Access)
  {
    a.q.Out? && IsRegister(a.q.port)
  }

  /** No register has been set since access `job`, as far as the next request. */
  predicate Undisturbed(accs: seq<Access>, job: nat)
  {
    job == |accs| - 1 || (job == |accs| - 2 && !SetsRegister(accs[|accs| - 1]))
  }

  /** The command being run, if any. */
  predicate Running(rv: Rv)
  {
    rv.pc.ReadRegs? || rv.pc.RunCommand?
  }

  predicate IsPrefix(got: seq<Byte>, r: DiskRegs)
  {
    |got| <= 6 && forall i :: 0 <= i < |got| ==>
      got[i] == [r.drive, r.track, r.sectorMsb, r.sectorLsb, r.dmaMsb, r.dmaLsb][i]
  }

  /** Only a request that sets a register changes them. */
  predicate RegsOk(s: Sys)
  {
    var n := |s.accs|;
    n > 0 && !SetsRegister(s.accs[n - 1]) ==> s.dev.disk == s.accs[n - 1].regs
  }

  /** A register keeps what was put into it until the next OUT to its port. */
  predicate HistoryOk(s: Sys)
  {
    var n := |s.accs|;
    && (n > 0 ==>
          s.dev.disk == if s.z.Asking? && s.dev.status != STAT_READY then s.accs[n - 1].regs
            else RegsAfter(s.accs[n - 1]))
    && (forall k :: 0 < k < n ==> s.accs[k].regs == RegsAfter(s.accs[k - 1]))
  }

  /** The command running is the one asked for. */
  predicate JobOk(s: Sys)
  {
    var n := |s.accs|;
    && (s.rv.pc.DataW? && s.rv.second ==> s.job == n - 1)
    && (Running(s.rv) ==> s.job < n && Is13(s.accs[s.job]) && s.rv.pc.cmd == s.accs[s.job].q.data)
  }

  /** It runs with the registers as they stood. */
  predicate JobRegs(s: Sys)
  {
    Running(s.rv) && s.job < |s.accs| && Undisturbed(s.accs, s.job) ==>
      && s.dev.disk == s.accs[s.job].regs
      && (if s.rv.pc.ReadRegs? then IsPrefix(s.rv.pc.got, s.dev.disk) else s.rv.pc.regs == s.dev.disk)
      && (s.rv.pc.ReadRegs? && s.rv.second ==> IsPrefix(s.rv.pc.got + [s.rv.seen], s.dev.disk))
  }

  /** Commands run in order, and the last one as it was asked for. */
  predicate LastOk(s: Sys)
  {
    && (s.last.Some? && Running(s.rv) ==> s.last.value.job < s.job)
    && (s.last.Some? && s.z.Asking? && (s.dev.status != STAT_READY || s.rv.pc.DataW?) ==>
         s.last.value.job < |s.accs| - 1)
    && (Running(s.rv) && s.z.Asking? && s.dev.status != STAT_READY ==> s.job < |s.accs| - 1)
    && (s.last.Some? ==>
      var r := s.last.value;
      && r.job < |s.accs| && Is13(s.accs[r.job]) && r.cmd == s.accs[r.job].q.data && r.status == s.diskStatus
      && (Undisturbed(s.accs, r.job) ==> r.regs == s.accs[r.job].regs))
  }

  /** The command of access `m` is being run, or was the last to run. */
  predicate Taken(s: Sys, m: int)
  {
    (Running(s.rv) && s.job == m) || (s.last.Some? && s.last.value.job == m)
  }

  /** No command the Z80 has got past is forgotten. */
  predicate NoneLost(s: Sys)
  {
    var n := |s.accs|;
    && (n > 0 && Is13(s.accs[n - 1]) && (s.z.Resting? || s.dev.status == STAT_READY)
         && !(s.rv.pc.DataW? && s.rv.second) ==>
          Taken(s, n - 1))
    && (n > 1 && !Is13(s.accs[n - 1]) && Is13(s.accs[n - 2]) ==> Taken(s, n - 2))
  }

  /** While the Z80 takes an answer, no command runs, and a disk status is the latest. */
  predicate AnswerOk(s: Sys)
  {
    s.z.Asking? && InFirmware(s.z.q) && s.z.q.In? && s.dev.status == STAT_READY ==>
      && (s.rv.pc == Poll || s.rv.pc.Console? || s.rv.pc.WriteIn?)
      && (s.z.q.port == 14 ==> s.dev.z80di == s.diskStatus)
  }

  predicate Inv(s: Sys)
  {
    && DeviceOk(s) && FirmwareOk(s) && RegsOk(s) && HistoryOk(s)
    && JobOk(s) && JobRegs(s) && LastOk(s) && NoneLost(s) && AnswerOk(s)
  }

  lemma InitialInv(s: Sys)
    requires Initial(s)
    ensures Inv(s)
  {
  }

  lemma InvSafe(s: Sys)
    requires Inv(s)
    ensures Safe(s)
  {
  }

  lemma TickDevice(s: Sys, c: Choice)
    requires Inv(s)
    ensures DeviceOk(Tick(s, c))
  {
    hide HistoryOk;
    hide RegsOk;
    hide JobOk;
    hide JobRegs;
    hide LastOk;
    hide NoneLost;
    hide AnswerOk;
  }

  lemma TickFirmware(s: Sys, c: Choice)
    requires Inv(s)
    ensures FirmwareOk(Tick(s, c))
  {
    hide HistoryOk;
    hide JobRegs;
    hide LastOk;
    hide NoneLost;
  }

  lemma TickRegs(s: Sys, c: Choice)
    requires Inv(s)
    ensures RegsOk(Tick(s, c))
  {
    hide HistoryOk;
    hide FirmwareOk;
    hide JobOk;
    hide JobRegs;
    hide LastOk;
    hide NoneLost;
  }

  lemma TickHistory(s: Sys, c: Choice)
    requires Inv(s)
    ensures HistoryOk(Tick(s, c))
  {
    hide FirmwareOk;
    hide RegsOk;
    hide JobOk;
    hide JobRegs;
    hide LastOk;
    hide NoneLost;
    hide AnswerOk;
  }

  lemma TickJob(s: Sys, c: Choice)
    requires Inv(s)
    ensures JobOk(Tick(s, c))
  {
    hide HistoryOk;
    hide JobRegs;
    hide LastOk;
    hide NoneLost;
    hide AnswerOk;
  }

  lemma TickJobRegs(s: Sys, c: Choice)
    requires Inv(s)
    ensures JobRegs(Tick(s, c))
  {
    hide HistoryOk;
    hide LastOk;
    hide NoneLost;
    hide AnswerOk;
    hide IsPrefix;
    hide ReadBack;
    hide RegsFrom;
    NothingRead(s.dev.disk);
    if s.rv.pc.ReadRegs? {
      OneMoreRead(s.rv.pc.got, s.dev);
      if |s.rv.pc.got| == 5 {
        AllRead(s.rv.pc.got + [ReadBack(s.dev, REG_ORDER[5])], s.dev.disk);
        if s.rv.second {
          AllRead(s.rv.pc.got + [s.rv.seen], s.dev.disk);
        }
      }
    }
  }

  lemma NothingRead(r: DiskRegs)
    ensures IsPrefix([], r)
  {
  }

  lemma OneMoreRead(got: seq<Byte>, d: Dev)
    requires |got| < 6
    ensures IsPrefix(got, d.disk) ==> IsPrefix(got + [ReadBack(d, REG_ORDER[|got|])], d.disk)
  {
  }

  lemma AllRead(got: seq<Byte>, r: DiskRegs)
    requires |got| == 6
    ensures IsPrefix(got, r) ==> RegsFrom(got) == r
  {
  }

  lemma TickLast(s: Sys, c: Choice)
    requires Inv(s)
    ensures LastOk(Tick(s, c))
  {
    hide HistoryOk;
    hide NoneLost;
    hide AnswerOk;
  }

  lemma TickLost(s: Sys, c: Choice)
    requires Inv(s)
    ensures NoneLost(Tick(s, c))
  {
    hide HistoryOk;
    hide RegsOk;
    hide JobRegs;
    hide AnswerOk;
  }

  lemma TickAnswer(s: Sys, c: Choice)
    requires Inv(s)
    ensures AnswerOk(Tick(s, c))
  {
    hide HistoryOk;
    hide RegsOk;
    hide JobOk;
    hide JobRegs;
    hide LastOk;
    hide NoneLost;
  }

  lemma TickKeeps(s: Sys, c: Choice)
    requires Inv(s)
    ensures Inv(Tick(s, c))
  {
    hide Tick;
    hide DeviceOk;
    hide FirmwareOk;
    hide RegsOk;
    hide HistoryOk;
    hide JobOk;
    hide JobRegs;
    hide LastOk;
    hide NoneLost;
    hide AnswerOk;
    TickDevice(s, c);
    TickFirmware(s, c);
    TickRegs(s, c);
    TickHistory(s, c);
    TickJob(s, c);
    TickJobRegs(s, c);
    TickLast(s, c);
    TickLost(s, c);
    TickAnswer(s, c);
  }

  /** The state after any sequence of clocks. */
  function Reached(s: Sys, cs: seq<Choice>): Sys
  {
    if cs == [] then s else Tick(Reached(s, cs[..|cs| - 1]), cs[|cs| - 1])
  }

  lemma {:induction false} ReachedInv(s: Sys, cs: seq<Choice>)
    requires Initial(s)
    ensures Inv(Reached(s, cs))
  {
    hide Inv;
    if cs == [] {
      InitialInv(s);
    } else {
      ReachedInv(s, cs[..|cs| - 1]);
      TickKeeps(Reached(s, cs[..|cs| - 1]), cs[|cs| - 1]);
    }
  }

  /** However Z80, firmware and clocks interleave: ready means served, IN returns what was written for it, and the IN 14
      after an OUT 13 returns the status of that command, run with the registers as they stood at the OUT. */
  lemma AlwaysSafe(s: Sys, cs: seq<Choice>)
    requires Initial(s)
    ensures Safe(Reached(s, cs))
  {
    hide Inv;
    hide Safe;
    ReachedInv(s, cs);
    InvSafe(Reached(s, cs));
  }

  /** Two clocks without a request are needed: one made after a single clock, to a port the firmware serves, sees the
      ready of the one before. */
  lemma TwoClocksNeeded(s: Sys, c: Choice, q: Request)
    requires Inv(s) && s.z == Resting(0) && InFirmware(q)
    ensures var t := Tick(s, c);
            t.z == Resting(1) && !Safe(t.(z := Asking(q), accs := t.accs + [Access(q, t.dev.disk)], served := None))
  {
  }

  /** The interface's registers, changed by its clocked block. */
  class CpmIo {
    var d: Dev

    /** After reset, which leaves z80_io_ready and the output data as they were. */
    constructor (ready: bool, out: Byte)
      ensures d.status == STAT_IDLE
    {
      d := Dev(STAT_IDLE, ready, 0, 0, out, 0, DiskRegs(0, 0, 0, 0, 0, 0));
    }

    method Clock(q: Request, bus: Bus)
      modifies this
      ensures d == Clocked(old(d), q, bus)
    {
      var n := d;
      if bus.Wr? {
        if bus.reg == 0 {
          n := n.(console := bus.value);
        } else if bus.reg == 10 {
          n := n.(z80di := bus.value, status := STAT_READY);
        }
      } else if bus.Rd? && bus.reg == 9 {
        n := n.(status := STAT_READY);
      }
      if q.In? {
        if InHardware(q) {
          n := n.(z80di := RegisterAt(d, q.port), status := STAT_READY);
        } else if d.status == STAT_IDLE {
          n := n.(adr := q.port, status := STAT_READ);
        }
      } else if q.Out? {
        if InHardware(q) {
          n := n.(disk := SetRegister(n.disk, q.port, q.data), status := STAT_READY);
        } else if d.status == STAT_IDLE {
          n := n.(adr := q.port, out := q.data, status := STAT_WRITE);
        }
      } else {
        n := n.(status := STAT_IDLE);
      }
      d := n.(ready := d.status == STAT_READY);
    }
  }

  /** Z80, firmware and interface run together through any sequence of clocks: every state is safe. */
  method Run(io: CpmIo, start: Sys, cs: seq<Choice>) returns (trace: seq<Sys>)
    requires start.dev == io.d && Initial(start)
    modifies io
    ensures |trace| == |cs| + 1 && trace[0] == start && trace[|cs|].dev == io.d
    ensures forall k :: 0 <= k < |cs| ==> trace[k + 1] == Around(trace[k], cs[k], trace[k + 1].dev)
    ensures forall k :: 0 <= k < |trace| ==> Safe(trace[k])
  {
    hide Inv;
    hide Safe;
    hide Clocked;
    hide Around;
    InitialInv(start);
    InvSafe(start);
    trace := [start];
    for n := 0 to |cs|
      invariant |trace| == n + 1 && trace[0] == start && trace[n].dev == io.d && Inv(trace[n])
      invariant forall k :: 0 <= k < n ==> trace[k + 1] == Around(trace[k], cs[k], trace[k + 1].dev)
      invariant forall k :: 0 <= k < |trace| ==> Safe(trace[k])
    {
      var s, c := trace[n], cs[n];
      io.Clock(Asked(s.z), Presented(s.rv, c));
      TickKeeps(s, c);
      InvSafe(Tick(s, c));
      AroundDev(s, c, io.d);
      trace := trace + [Around(s, c, io.d)];
    }
  }

  lemma AroundDev(s: Sys, c: Choice, dev: Dev)
    ensures Around(s, c, dev).dev == dev
  {
  }
}
