/** What holds of every run of the kernel read engine: which read a slot's content comes from, whom
    a trap is charged to, and what is left of earlier reads. */
module KernelSafety {
  import opened Bits
  import opened Parse
  import opened Decode
  import opened FuncTable
  import opened KernelEngine
  import opened KernelRun
  import opened Join
  import opened JoinSpec
  import opened Tables
  import opened Lookup
  import opened Routing

  // ----- one request -----

  /** The turn in which the callback ran and wrote a slot last. */
  datatype MaybeTurn = DidNotRun | RanIn(turn: nat, ev: CpuEvent)

  /** With several processors slot `i` is written in the turn of CPU `i`; with one only, every turn
      writes slot 0. */
  function LastRun(cfg: Config, pcpu: u32, evs: seq<CpuEvent>, i: nat): (r: MaybeTurn)
    requires |evs| == MS_MAX_CPUS && i < MS_MAX_CPUS
    ensures r.RanIn? ==> r.turn < MS_MAX_CPUS && r.ev == evs[r.turn] && (pcpu == MS_CPU_ALL || pcpu == r.turn)
  {
    if cfg.smp then (if Asked(pcpu, i) && Runs(cfg, evs[i]) then RanIn(i, evs[i]) else DidNotRun)
    else if i != 0 then DidNotRun
    else if pcpu == MS_CPU_ALL then RanIn(MS_MAX_CPUS - 1, evs[MS_MAX_CPUS - 1])
    else if pcpu < MS_MAX_CPUS then RanIn(pcpu, evs[pcpu])
    else DidNotRun
  }

  predicate Asked(pcpu: u32, i: nat) {
    pcpu == MS_CPU_ALL || pcpu == i
  }

  /** The trap flag that the turn of CPU `t` began with. */
  ghost predicate PendingAt(cfg: Config, rd: Reader, pcpu: u32, evs: seq<CpuEvent>, t: nat)
    requires t <= |evs|
  {
    pcpu == MS_CPU_ALL && FlagBefore(cfg, rd, evs, t)
  }

  /** Slot `i` after a request, from that slot before it and nothing else of the record. */
  ghost function SlotAfterKick(cfg: Config, rd: Reader, d: MsData, pcpu: u32, evs: seq<CpuEvent>, i: nat): MsData
    requires |evs| == MS_MAX_CPUS && i < MS_MAX_CPUS
  {
    var run := LastRun(cfg, pcpu, evs, i);
    if run.RanIn? then AfterRead(cfg, rd, d, i, PendingAt(cfg, rd, pcpu, evs, run.turn), run.ev)
    else if cfg.smp && Asked(pcpu, i) then d.(status := if !evs[i].online && evs[i].upFails then Smp else SmpSingle)
    else d
  }

  /** A read overwrites what an earlier read of the same request left. */
  lemma {:induction false} ReadTwice(cfg: Config, rd: Reader, d: MsData, slot: nat, flag: bool, ev: CpuEvent,
      flag': bool, ev': CpuEvent)
    requires slot < MS_MAX_CPUS
    ensures AfterRead(cfg, rd, AfterRead(cfg, rd, d, slot, flag, ev), slot, flag', ev')
         == AfterRead(cfg, rd, d, slot, flag', ev')
  {}

  lemma {:induction false} TurnsSlot(cfg: Config, rd: Reader, slots: seq<MsData>, evs: seq<CpuEvent>, n: nat, i: nat)
    requires |slots| == |evs| == MS_MAX_CPUS && n <= MS_MAX_CPUS && i < MS_MAX_CPUS
    ensures AfterTurns(cfg, rd, slots, evs, n)[i]
         == if cfg.smp then (if i < n then SlotAfterKick(cfg, rd, slots[i], MS_CPU_ALL, evs, i) else slots[i])
            else if i == 0 < n then AfterRead(cfg, rd, slots[0], 0, FlagBefore(cfg, rd, evs, n - 1), evs[n - 1])
            else slots[i]
  {
    hide AfterRead, FlagBefore;
    if n > 0 {
      TurnsSlot(cfg, rd, slots, evs, n - 1, i);
      if !cfg.smp && n > 1 {
        ReadTwice(cfg, rd, slots[0], 0, FlagBefore(cfg, rd, evs, n - 2), evs[n - 2],
                  FlagBefore(cfg, rd, evs, n - 1), evs[n - 1]);
      }
    }
  }

  /** What a request makes of slot `i` is decided by that slot before it, by the turn that wrote the
      slot last, and by the trap flag that this turn began with. */
  lemma {:induction false} KickSlot(cfg: Config, rd: Reader, slots: seq<MsData>, pcpu: u32, evs: seq<CpuEvent>, i: nat)
    requires |slots| == |evs| == MS_MAX_CPUS && i < MS_MAX_CPUS
    ensures AfterKick(cfg, rd, slots, pcpu, evs)[i] == SlotAfterKick(cfg, rd, slots[i], pcpu, evs, i)
  {
    hide AfterRead, FlagBefore;
    if pcpu == MS_CPU_ALL {
      TurnsSlot(cfg, rd, slots, evs, MS_MAX_CPUS, i);
    }
  }

  // ----- the trap flag within a request -----

  /** A trap of other code is still to be consumed when CPU `t` looks: it came in this turn, or in an
      earlier one of the same request since when no CPU ran the callback. */
  ghost predicate ForeignTrap(cfg: Config, pcpu: u32, evs: seq<CpuEvent>, t: nat)
    requires t < |evs|
  {
    exists j :: (if pcpu == MS_CPU_ALL then 0 else t) <= j <= t && evs[j].stray && NoneRan(cfg, evs, j, t)
  }

  ghost predicate NoneRan(cfg: Config, evs: seq<CpuEvent>, j: nat, t: nat)
    requires t <= |evs|
  {
    forall k :: j <= k < t ==> !Runs(cfg, evs[k])
  }

  ghost predicate NoStrays(evs: seq<CpuEvent>) {
    forall j :: 0 <= j < |evs| ==> !evs[j].stray
  }

  /** Among readers of a known shape the flag before a turn is set exactly by a trap of other code that
      no turn since then consumed: never by another CPU's own trap. */
  lemma {:induction false} FlagIsForeign(cfg: Config, e: FuncEntry, evs: seq<CpuEvent>, t: nat)
    requires t <= |evs| && Supported(e)
    ensures FlagBefore(cfg, Coprocessor(e), evs, t)
       <==> exists j :: 0 <= j < t && evs[j].stray && NoneRan(cfg, evs, j, t)
  {
    hide Supported;
    if t > 0 {
      FlagIsForeign(cfg, e, evs, t - 1);
      if Runs(cfg, evs[t - 1]) {
        assert forall j :: 0 <= j < t ==> !NoneRan(cfg, evs, j, t);
      } else {
        assert forall j :: 0 <= j < t ==> (NoneRan(cfg, evs, j, t) <==> NoneRan(cfg, evs, j, t - 1));
        assert NoneRan(cfg, evs, t - 1, t - 1);
      }
    }
  }

  lemma {:induction false} ChargedExactly(cfg: Config, e: FuncEntry, pcpu: u32, evs: seq<CpuEvent>, t: nat)
    requires t < |evs| && Supported(e)
    ensures Charged(PendingAt(cfg, Coprocessor(e), pcpu, evs, t), evs[t])
       <==> Trapped(evs[t]) || ForeignTrap(cfg, pcpu, evs, t)
  {
    hide Supported, Trapped, FlagBefore;
    FlagIsForeign(cfg, e, evs, t);
    if evs[t].stray {
      assert NoneRan(cfg, evs, t, t);
    }
  }

  // ----- slot isolation -----

  /** The request may write slot `i`, and the turn that decides what it writes. */
  predicate Touches(cfg: Config, pcpu: u32, i: nat) {
    if cfg.smp then Asked(pcpu, i) else i == 0 && (pcpu == MS_CPU_ALL || pcpu < MS_MAX_CPUS)
  }

  function DecidingTurn(cfg: Config, pcpu: u32, i: nat): (t: nat)
    requires Touches(cfg, pcpu, i) && i < MS_MAX_CPUS
    ensures t < MS_MAX_CPUS
  {
    if cfg.smp then i else if pcpu == MS_CPU_ALL then MS_MAX_CPUS - 1 else pcpu
  }

  /** A request for one CPU leaves every other slot as it was. Two environments in which the deciding
      turn of a slot is the same make the same of that slot, as long as the turn begins with the same
      trap flag; and so always when no other code traps. */
  lemma {:induction false} SlotsIsolated(cfg: Config, rd: Reader, slots: seq<MsData>, pcpu: u32,
      evs: seq<CpuEvent>, evs': seq<CpuEvent>, i: nat)
    requires |slots| == |evs| == |evs'| == MS_MAX_CPUS && i < MS_MAX_CPUS
    ensures !Touches(cfg, pcpu, i) ==> AfterKick(cfg, rd, slots, pcpu, evs)[i] == slots[i]
    ensures Touches(cfg, pcpu, i) ==>
              var t := DecidingTurn(cfg, pcpu, i);
              evs[t] == evs'[t] && (PendingAt(cfg, rd, pcpu, evs, t) == PendingAt(cfg, rd, pcpu, evs', t)
                                    || (NoStrays(evs) && NoStrays(evs'))) ==>
                AfterKick(cfg, rd, slots, pcpu, evs)[i] == AfterKick(cfg, rd, slots, pcpu, evs')[i]
  {
    hide FlagBefore, AfterRead, NoStrays;
    KickSlot(cfg, rd, slots, pcpu, evs, i);
    KickSlot(cfg, rd, slots, pcpu, evs', i);
    if Touches(cfg, pcpu, i) {
      var t := DecidingTurn(cfg, pcpu, i);
      if evs[t] == evs'[t] && NoStrays(evs) && NoStrays(evs') {
        QuietFlag(cfg, rd, slots[i], pcpu, evs, t, i);
        QuietFlag(cfg, rd, slots[i], pcpu, evs', t, i);
      }
    }
  }

  /** When no other code traps, a read finds the flag as if it were clear. */
  lemma {:induction false} QuietFlag(cfg: Config, rd: Reader, d: MsData, pcpu: u32, evs: seq<CpuEvent>, t: nat, i: nat)
    requires t < |evs| && i < MS_MAX_CPUS && NoStrays(evs)
    ensures AfterRead(cfg, rd, d, i, PendingAt(cfg, rd, pcpu, evs, t), evs[t])
         == AfterRead(cfg, rd, d, i, false, evs[t])
  {
    hide FlagBefore, Supported;
    if rd.Coprocessor? && Supported(rd.entry) {
      FlagIsForeign(cfg, rd.entry, evs, t);
    }
  }

  // ----- what a delivered read leaves in a slot -----

  /** The reader of a read, and the event in which it ran for slot `i`. */
  ghost function ReaderOfRead(cfg: Config, x: UsedIoctl): MaybeReader {
    ReaderFor(cfg, IsGicPart(x.part), x.registerUid, x.part)
  }

  /** Slot `i` holds what this read, in this event, returned. */
  ghost predicate HoldsReading(cfg: Config, rd: Reader, ev: CpuEvent, d: MsData, i: nat) {
    && d.cpu == i
    && match rd
       case Coprocessor(e) =>
         && d.out64 == Stored64(e, cfg.aarch64, ev.words)
         && d.out1 == Stored1(e, cfg.aarch64, ev.words)
         && d.out2 == Stored2(e, cfg.aarch64, ev.words)
         && d.midr == ev.midr
       case Gic(base, offset) => d.out64 == 0 && d.out1 == ev.memory(base + offset) && d.out2 == 0
  }

  /** The reading succeeds: the reader works, and the CPU finds no trap charged to it. */
  ghost predicate Succeeds(rd: Reader, flag: bool, ev: CpuEvent) {
    match rd
    case Coprocessor(e) => Supported(e) && !Charged(flag, ev)
    case Gic(base, offset) => base != 0
  }

  /** The status that a delivered read must leave in slot `i`. */
  ghost function ExpectedStatus(cfg: Config, x: UsedIoctl, evs: seq<CpuEvent>, i: nat): Status
    requires |evs| == MS_MAX_CPUS && i < MS_MAX_CPUS
  {
    var rd := ReaderOfRead(cfg, x);
    var run := LastRun(cfg, x.cpu, evs, i);
    if rd == NoReader then NoResult
    else if run.RanIn? then
      if Succeeds(rd.reader, PendingAt(cfg, rd.reader, x.cpu, evs, run.turn), run.ev) then Success
      else if rd.reader.Gic? then NoResult
      else if !Supported(rd.reader.entry) then TableError
      else UndefInst
    else if cfg.smp && Asked(x.cpu, i) then (if !evs[i].online && evs[i].upFails then Smp else SmpSingle)
    else NoResult
  }

  /** After a delivered read every slot's status says what happened to that slot in this very
      read, whatever the record held before. In particular a slot is a success exactly when the
      reading ran and succeeded, and a trap exactly when it ran and found a trap charged to it; and a
      success holds the value of this reading. */
  lemma {:induction false} SlotAfterRead(cfg: Config, slots: seq<MsData>, x: UsedIoctl, s: Step, i: nat)
    requires |slots| == |s.cpus| == MS_MAX_CPUS && i < MS_MAX_CPUS && Delivered(s)
    ensures StepSlots(cfg, slots, x, s)[i].status == ExpectedStatus(cfg, x, s.cpus, i)
    ensures StepSlots(cfg, slots, x, s)[i].status == Success ==>
              && ReaderOfRead(cfg, x).HasReaderFor?
              && LastRun(cfg, x.cpu, s.cpus, i).RanIn?
              && HoldsReading(cfg, ReaderOfRead(cfg, x).reader, LastRun(cfg, x.cpu, s.cpus, i).ev,
                              StepSlots(cfg, slots, x, s)[i], i)
  {
    hide Stored64, Stored1, Stored2, ReaderFor, MscodeField, PendingAt;
    var rd := ReaderOfRead(cfg, x);
    if rd.HasReaderFor? {
      KickSlot(cfg, rd.reader, Reset(slots), x.cpu, s.cpus, i);
    }
  }

  // ----- whole runs -----

  /** A result comes from read `n` and slot `i`. */
  datatype Origin = Origin(n: nat, i: nat)

  ghost function Origins(script: seq<Step>, n: nat): (r: seq<Origin>)
    requires n <= |script|
    ensures forall m :: 0 <= m < |r| ==> r[m].n < n && r[m].i < MS_MAX_CPUS && Delivered(script[r[m].n])
  {
    if n == 0 then []
    else if Delivered(script[n - 1]) then
      Origins(script, n - 1) + seq(MS_MAX_CPUS, i requires 0 <= i => Origin(n - 1, i))
    else Origins(script, n - 1)
  }

  lemma {:induction false} ResultOrigins(cfg: Config, ioctls: seq<UsedIoctl>, script: seq<Step>, n: nat)
    requires Scripted(ioctls, script) && n <= |ioctls|
    ensures |ResultsAfter(cfg, ioctls, script, n)| == |Origins(script, n)|
    ensures forall m :: 0 <= m < |Origins(script, n)| ==>
              ResultsAfter(cfg, ioctls, script, n)[m]
              == SlotResult(ioctls[Origins(script, n)[m].n],
                            SlotsAfter(cfg, ioctls, script, Origins(script, n)[m].n + 1)[Origins(script, n)[m].i])
  {
    hide StepSlots, SlotsAfter;
    if n > 0 {
      ResultOrigins(cfg, ioctls, script, n - 1);
    }
  }

  // ----- the CPU that a result names -----

  /** Read `k` is delivered and its reader ran and wrote slot `i`; a device reader without a base address
      writes nothing. */
  ghost predicate RanAt(cfg: Config, ioctls: seq<UsedIoctl>, script: seq<Step>, k: nat, i: nat)
    requires Scripted(ioctls, script) && k < |ioctls| && i < MS_MAX_CPUS
  {
    Delivered(script[k]) && Writes(cfg, ioctls[k], script[k].cpus, i)
  }

  ghost predicate Writes(cfg: Config, x: UsedIoctl, evs: seq<CpuEvent>, i: nat)
    requires |evs| == MS_MAX_CPUS && i < MS_MAX_CPUS
  {
    var rd := ReaderOfRead(cfg, x);
    && rd.HasReaderFor? && LastRun(cfg, x.cpu, evs, i).RanIn?
    && (rd.reader.Gic? ==> rd.reader.base != 0)
  }

  /** Some reader ran on slot `i` in the first `n` reads. */
  ghost predicate RanOn(cfg: Config, ioctls: seq<UsedIoctl>, script: seq<Step>, n: nat, i: nat)
    requires Scripted(ioctls, script) && n <= |ioctls| && i < MS_MAX_CPUS
  {
    exists k :: 0 <= k < n && RanAt(cfg, ioctls, script, k, i)
  }

  lemma {:induction false} CpuAfterStep(cfg: Config, slots: seq<MsData>, x: UsedIoctl, s: Step, i: nat)
    requires |slots| == |s.cpus| == MS_MAX_CPUS && i < MS_MAX_CPUS
    ensures StepSlots(cfg, slots, x, s)[i].cpu
         == if Delivered(s) && Writes(cfg, x, s.cpus, i) then i else slots[i].cpu
  {
    hide ReaderFor, LastRun, Stored64, Stored1, Stored2, PendingAt;
    var rd := ReaderOfRead(cfg, x);
    if Delivered(s) && rd.HasReaderFor? {
      KickSlot(cfg, rd.reader, Reset(slots), x.cpu, s.cpus, i);
    }
  }

  /** A slot names its own CPU once a reader has run on it in this query, and CPU 0 until then. */
  lemma {:induction false} CpuInSlot(cfg: Config, ioctls: seq<UsedIoctl>, script: seq<Step>, n: nat, i: nat)
    requires Scripted(ioctls, script) && n <= |ioctls| && i < MS_MAX_CPUS
    ensures SlotsAfter(cfg, ioctls, script, n)[i].cpu == if RanOn(cfg, ioctls, script, n, i) then i else 0
  {
    hide Writes, StepSlots, Delivered;
    if n > 0 {
      CpuInSlot(cfg, ioctls, script, n - 1, i);
      CpuAfterStep(cfg, SlotsAfter(cfg, ioctls, script, n - 1), ioctls[n - 1], script[n - 1], i);
      assert RanOn(cfg, ioctls, script, n, i)
        <==> RanOn(cfg, ioctls, script, n - 1, i) || RanAt(cfg, ioctls, script, n - 1, i);
    }
  }

  /** The register value that a reading stands for. */
  ghost function RegisterValue(cfg: Config, rd: Reader, ev: CpuEvent): u64 {
    match rd
    case Coprocessor(e) => ReadValue(e, cfg.aarch64, ev.words)
    case Gic(base, offset) => ev.memory(base + offset)
  }

  /** The reading's words join to its value: no 64-bit reader leaves something in a second word. */
  predicate Transportable(cfg: Config, rd: Reader, ev: CpuEvent) {
    match rd
    case Coprocessor(e) => WordsJoin(e, cfg.aarch64, ev.words)
    case Gic(base, offset) => true
  }

  /** `r` is the result of reading `x` on CPU slot `i` with the events `evs`: its status says what
      happened there, and a success carries the value that was read there and then. */
  ghost predicate Faithful(cfg: Config, x: UsedIoctl, evs: seq<CpuEvent>, i: nat, r: IoctlResult) {
    && |evs| == MS_MAX_CPUS && i < MS_MAX_CPUS
    && r.registerUid == x.registerUid && r.epl == NS_PRIVILEGE_LEVEL_1
    && r.status == ExpectedStatus(cfg, x, evs, i)
    && (r.status == Success ==>
          && SucceedsAt(cfg, x, evs, i)
          && r.cpu == i
          && RawValue(r) == JoinedValue(cfg, ReaderOfRead(cfg, x).reader, LastRun(cfg, x.cpu, evs, i).ev)
          && (RawValue(r) == RegisterValue(cfg, ReaderOfRead(cfg, x).reader, LastRun(cfg, x.cpu, evs, i).ev)
              <==> Transportable(cfg, ReaderOfRead(cfg, x).reader, LastRun(cfg, x.cpu, evs, i).ev)))
  }

  /** The read runs on slot `i` and succeeds there. */
  ghost predicate SucceedsAt(cfg: Config, x: UsedIoctl, evs: seq<CpuEvent>, i: nat)
    requires |evs| == MS_MAX_CPUS && i < MS_MAX_CPUS
  {
    var rd := ReaderOfRead(cfg, x);
    var run := LastRun(cfg, x.cpu, evs, i);
    rd.HasReaderFor? && run.RanIn? && Succeeds(rd.reader, PendingAt(cfg, rd.reader, x.cpu, evs, run.turn), run.ev)
  }

  /** The value that the words of a reading are joined to. */
  ghost function JoinedValue(cfg: Config, rd: Reader, ev: CpuEvent): u64 {
    match rd
    case Coprocessor(e) => JoinedWords(e, cfg.aarch64, ev.words)
    case Gic(base, offset) => ev.memory(base + offset)
  }

  /** The words of a reading join to the register value exactly when they can be transported, which those
      of a device reading always can. */
  lemma {:induction false} JoinedIsRegister(cfg: Config, rd: Reader, ev: CpuEvent)
    requires rd.Coprocessor? ==> Supported(rd.entry)
    ensures JoinedValue(cfg, rd, ev) == RegisterValue(cfg, rd, ev) <==> Transportable(cfg, rd, ev)
  {
    hide ValueToLong, Stored64, Stored1, Stored2;
    if rd.Coprocessor? {
      TransportRoundTrip(rd.entry, cfg.aarch64, ev.words);
    }
  }

  lemma {:induction false} ReadingValue(cfg: Config, rd: Reader, ev: CpuEvent, d: MsData, i: nat, x: UsedIoctl)
    requires HoldsReading(cfg, rd, ev, d, i)
    ensures SlotResult(x, d).cpu == i
    ensures RawValue(SlotResult(x, d)) == JoinedValue(cfg, rd, ev)
  {
    hide ValueToLong, Stored64, Stored1, Stored2, MscodeField;
    ValueIsRaw(SlotResult(x, d));
  }

  lemma {:induction false} SuccessStatus(cfg: Config, x: UsedIoctl, evs: seq<CpuEvent>, i: nat)
    requires |evs| == MS_MAX_CPUS && i < MS_MAX_CPUS
    ensures ExpectedStatus(cfg, x, evs, i) == Success <==> SucceedsAt(cfg, x, evs, i)
  {
    hide PendingAt, ReaderOfRead;
  }

  lemma SuccessWorks(cfg: Config, x: UsedIoctl, evs: seq<CpuEvent>, i: nat)
    requires |evs| == MS_MAX_CPUS && i < MS_MAX_CPUS && SucceedsAt(cfg, x, evs, i)
    ensures ReaderOfRead(cfg, x).HasReaderFor? && LastRun(cfg, x.cpu, evs, i).RanIn?
    ensures ReaderOfRead(cfg, x).reader.Coprocessor? ==> Supported(ReaderOfRead(cfg, x).reader.entry)
    ensures Writes(cfg, x, evs, i)
  {
    hide PendingAt, ReaderOfRead, LastRun;
  }

  /** No stale success: although one record serves all reads and its status is zeroed to success, in
      every run every result has the status that its own read deserves on its own slot, and a success
      carries the value read there and then, under its own CPU's number. */
  lemma {:induction false} EveryResultFaithful(cfg: Config, ioctls: seq<UsedIoctl>, script: seq<Step>, m: nat)
    requires Scripted(ioctls, script) && m < |Origins(script, |ioctls|)|
    ensures |ResultsAfter(cfg, ioctls, script, |ioctls|)| == |Origins(script, |ioctls|)|
    ensures Faithful(cfg, ioctls[Origins(script, |ioctls|)[m].n], script[Origins(script, |ioctls|)[m].n].cpus,
                     Origins(script, |ioctls|)[m].i, ResultsAfter(cfg, ioctls, script, |ioctls|)[m])
  {
    hide StepSlots, ExpectedStatus, HoldsReading, RawValue, JoinedValue, ReaderOfRead, LastRun, SucceedsAt;
    hide RegisterValue, Transportable;
    ResultOrigins(cfg, ioctls, script, |ioctls|);
    var o := Origins(script, |ioctls|)[m];
    var x, s := ioctls[o.n], script[o.n];
    var d := SlotsAfter(cfg, ioctls, script, o.n + 1)[o.i];
    SlotAfterRead(cfg, SlotsAfter(cfg, ioctls, script, o.n), x, s, o.i);
    SuccessStatus(cfg, x, s.cpus, o.i);
    if d.status == Success {
      SuccessWorks(cfg, x, s.cpus, o.i);
      ReadingValue(cfg, ReaderOfRead(cfg, x).reader, LastRun(cfg, x.cpu, s.cpus, o.i).ev, d, o.i, x);
      JoinedIsRegister(cfg, ReaderOfRead(cfg, x).reader, LastRun(cfg, x.cpu, s.cpus, o.i).ev);
    }
  }

  /** CPU attribution, exactly: a result names the CPU of its slot if and only if this is CPU 0 or some
      reader has run on it in this query, up to and including the result's own read. Otherwise it
      names CPU 0. */
  lemma {:induction false} CpuAttributed(cfg: Config, ioctls: seq<UsedIoctl>, script: seq<Step>, m: nat)
    requires Scripted(ioctls, script) && m < |Origins(script, |ioctls|)|
    ensures |ResultsAfter(cfg, ioctls, script, |ioctls|)| == |Origins(script, |ioctls|)|
    ensures var o := Origins(script, |ioctls|)[m];
            var r := ResultsAfter(cfg, ioctls, script, |ioctls|)[m];
            && (r.cpu == o.i <==> o.i == 0 || RanOn(cfg, ioctls, script, o.n + 1, o.i))
            && (r.cpu == o.i || r.cpu == 0)
  {
    hide RanOn, SlotsAfter, ResultsAfter;
    ResultOrigins(cfg, ioctls, script, |ioctls|);
    var o := Origins(script, |ioctls|)[m];
    CpuInSlot(cfg, ioctls, script, o.n + 1, o.i);
  }

  /** The failing input: in a request for all CPUs, a CPU that cannot be brought up reports its failure
      as CPU 0; so do all such CPUs, under one and the same register, CPU and status. */
  lemma FailureNamesCpu0(cfg: Config, x: UsedIoctl, evs: seq<CpuEvent>, i: nat)
    requires cfg.smp && x.cpu == MS_CPU_ALL && ReaderOfRead(cfg, x).HasReaderFor?
    requires |evs| == MS_MAX_CPUS && i < MS_MAX_CPUS && !evs[i].online && evs[i].upFails
    ensures |ResultsAfter(cfg, [x], [Step(true, false, evs)], 1)| == MS_MAX_CPUS
    ensures var r := ResultsAfter(cfg, [x], [Step(true, false, evs)], 1)[i];
            r.registerUid == x.registerUid && r.status == Smp && r.cpu == 0
  {
    hide ReaderOfRead, ResultsAfter, RanOn;
    var script := [Step(true, false, evs)];
    assert Origins(script, 0) == [];
    assert Origins(script, 1)[i] == Origin(0, i);
    EveryResultFaithful(cfg, [x], script, i);
    CpuAttributed(cfg, [x], script, i);
    NotRanYet(cfg, x, script, i);
  }

  lemma NotRanYet(cfg: Config, x: UsedIoctl, script: seq<Step>, i: nat)
    requires Scripted([x], script) && i < MS_MAX_CPUS && !Writes(cfg, x, script[0].cpus, i)
    ensures !RanOn(cfg, [x], script, 1, i)
  {
    hide Writes;
  }

  // ----- results of a run, in the fields of reads and events -----

  /** The reader of a read: for parts 8 to 11 the device, at the base for the part and the low 16 bits of
      the code; for other parts the first entry with the code, if there is one. */
  lemma ReaderInFields(cfg: Config, x: UsedIoctl)
    ensures x.part == 8 ==> ReaderOfRead(cfg, x) == HasReaderFor(Gic(cfg.giccBase, x.registerUid % 0x1_0000))
    ensures x.part == 9 ==> ReaderOfRead(cfg, x) == HasReaderFor(Gic(cfg.gicdBase, x.registerUid % 0x1_0000))
    ensures x.part == 10 ==> ReaderOfRead(cfg, x) == HasReaderFor(Gic(cfg.gichBase, x.registerUid % 0x1_0000))
    ensures x.part == 11 ==> ReaderOfRead(cfg, x) == HasReaderFor(Gic(cfg.gicvBase, x.registerUid % 0x1_0000))
    ensures !(8 <= x.part <= 11) ==>
              forall j: nat :: FirstEntry(cfg.funcTable, x.registerUid, j) ==>
                ReaderOfRead(cfg, x) == HasReaderFor(Coprocessor(cfg.funcTable[j]))
    ensures !(8 <= x.part <= 11)
            && (forall k :: 0 <= k < |cfg.funcTable| ==> cfg.funcTable[k].code != x.registerUid) ==>
              ReaderOfRead(cfg, x) == NoReader
  {
    hide And, Low, Shr;
    Pow2Values();
    AndLowMask(x.registerUid, 16);
    ShiftIsDivision(x.registerUid, 16);
    forall j: nat | FirstEntry(cfg.funcTable, x.registerUid, j)
      ensures HasReader(cfg.funcTable, x.registerUid) && EntryFor(cfg.funcTable, x.registerUid) == cfg.funcTable[j]
    {
      FirstEntryIsReader(cfg.funcTable, x.registerUid, j);
    }
  }

  /** The turn that wrote a slot: with several processors that of the slot's own CPU, if it was asked, is or
      comes up, and can be called; with one processor the last turn of the request, in slot 0. */
  lemma RunInFields(cfg: Config, pcpu: u32, evs: seq<CpuEvent>, i: nat)
    requires |evs| == MS_MAX_CPUS && i < MS_MAX_CPUS
    ensures cfg.smp ==>
              (LastRun(cfg, pcpu, evs, i).RanIn?
               <==> (pcpu == 0xFFFF_FFFF || pcpu == i) && (evs[i].online || !evs[i].upFails) && !evs[i].callFails)
    ensures cfg.smp && LastRun(cfg, pcpu, evs, i).RanIn? ==>
              LastRun(cfg, pcpu, evs, i).turn == i && LastRun(cfg, pcpu, evs, i).ev == evs[i]
    ensures !cfg.smp ==> (LastRun(cfg, pcpu, evs, i).RanIn? <==> i == 0 && (pcpu == 0xFFFF_FFFF || pcpu < 8))
    ensures !cfg.smp && LastRun(cfg, pcpu, evs, i).RanIn? ==>
              var t := if pcpu == 0xFFFF_FFFF then 7 else pcpu;
              LastRun(cfg, pcpu, evs, i).turn == t && LastRun(cfg, pcpu, evs, i).ev == evs[t]
  {}

  /** The status of every result of a run. It is "no result" without a reader, for a CPU that was not asked,
      and for a device without a base; "CPU not up" and "call failed" as the CPU did; a table error for an
      entry whose shape is none of the five; and for a working reader, when no other code traps, a trap if
      the CPU's access to the MIDR or to the register trapped, and success otherwise. */
  lemma {:induction false} StatusInFields(cfg: Config, ioctls: seq<UsedIoctl>, script: seq<Step>, m: nat)
    requires Scripted(ioctls, script) && m < |Origins(script, |ioctls|)|
    ensures |ResultsAfter(cfg, ioctls, script, |ioctls|)| == |Origins(script, |ioctls|)|
    ensures var o := Origins(script, |ioctls|)[m];
            var x, evs := ioctls[o.n], script[o.n].cpus;
            var rd, run := ReaderOfRead(cfg, x), LastRun(cfg, x.cpu, evs, o.i);
            var r := ResultsAfter(cfg, ioctls, script, |ioctls|)[m];
            && r.registerUid == x.registerUid && r.epl == 2
            && (rd == NoReader ==> r.status == NoResult)
            && (rd != NoReader && run == DidNotRun ==>
                  r.status == if !cfg.smp || !(x.cpu == 0xFFFF_FFFF || x.cpu == o.i) then NoResult
                              else if !evs[o.i].online && evs[o.i].upFails then Smp
                              else SmpSingle)
            && (rd != NoReader && run.RanIn? && rd.reader.Gic? ==>
                  r.status == if rd.reader.base == 0 then NoResult else Success)
            && (rd != NoReader && run.RanIn? && rd.reader.Coprocessor? ==>
                  var e := rd.reader.entry;
                  var known := (e.prototype == Out1 && e.dataSize in {Bits32, Bits64, BitsArch})
                               || (e.prototype == Out2 && e.dataSize in {Bits32, BitsArch});
                  && (r.status == TableError <==> !known)
                  && (known && NoStrays(evs) ==>
                        r.status == if run.ev.midrTraps || run.ev.readTraps then UndefInst else Success))
  {
    hide ReaderOfRead, ResultsAfter, Origins, LastRun, FlagBefore, NoStrays, RawValue, JoinedValue, RegisterValue;
    EveryResultFaithful(cfg, ioctls, script, m);
    var o := Origins(script, |ioctls|)[m];
    var x, evs := ioctls[o.n], script[o.n].cpus;
    var rd, run := ReaderOfRead(cfg, x), LastRun(cfg, x.cpu, evs, o.i);
    if rd != NoReader && run.RanIn? && rd.reader.Coprocessor? && Supported(rd.reader.entry) && NoStrays(evs) {
      ChargedExactly(cfg, rd.reader.entry, x.cpu, evs, run.turn);
      QuietTurn(cfg, x.cpu, evs, run.turn);
    }
  }

  /** The value of every success of a run: for a device what memory held at base plus offset; for a table
      entry the word or the two words that its reader returned, shape by shape, and the MIDR read with
      them. */
  lemma {:induction false} ValueInFields(cfg: Config, ioctls: seq<UsedIoctl>, script: seq<Step>, m: nat)
    requires Scripted(ioctls, script) && m < |Origins(script, |ioctls|)|
    ensures |ResultsAfter(cfg, ioctls, script, |ioctls|)| == |Origins(script, |ioctls|)|
    ensures ResultsAfter(cfg, ioctls, script, |ioctls|)[m].status == Success ==>
              var o := Origins(script, |ioctls|)[m];
              var rd, run := ReaderOfRead(cfg, ioctls[o.n]), LastRun(cfg, ioctls[o.n].cpu, script[o.n].cpus, o.i);
              var r := ResultsAfter(cfg, ioctls, script, |ioctls|)[m];
              && rd.HasReaderFor? && run.RanIn? && r.cpu == o.i
              && (rd.reader.Gic? ==> RawValue(r) == run.ev.memory(rd.reader.base + rd.reader.offset))
              && (rd.reader.Coprocessor? ==>
                    var e, w := rd.reader.entry, run.ev.words;
                    && r.midr == run.ev.midr
                    && (e.prototype == Out1 && e.dataSize == Bits32 ==> RawValue(r) == w.val1)
                    && (e.prototype == Out1 && e.dataSize == Bits64 ==> RawValue(r) == w.val64)
                    && (e.prototype == Out1 && e.dataSize == BitsArch ==>
                          RawValue(r) == if cfg.aarch64 then w.val64 else w.val1)
                    && (e.prototype == Out2 && e.dataSize == Bits32 ==>
                          RawValue(r) == w.val2 * 0x1_0000_0000 + w.val1)
                    && (e.prototype == Out2 && e.dataSize == BitsArch && !cfg.aarch64 ==>
                          RawValue(r) == w.val2 * 0x1_0000_0000 + w.val1)
                    && (e.prototype == Out2 && e.dataSize == BitsArch && cfg.aarch64 ==>
                          RawValue(r) == if w.val2 == 0 then w.val64 else w.val2 * 0x1_0000_0000))
  {
    hide ReaderOfRead, ResultsAfter, Origins, LastRun, PendingAt, RawValue, JoinedWords, RegisterValue, Transportable;
    hide Supported, SlotsAfter, ExpectedStatus;
    EveryResultFaithful(cfg, ioctls, script, m);
    ResultOrigins(cfg, ioctls, script, |ioctls|);
    var o := Origins(script, |ioctls|)[m];
    var rd, run := ReaderOfRead(cfg, ioctls[o.n]), LastRun(cfg, ioctls[o.n].cpu, script[o.n].cpus, o.i);
    if rd.HasReaderFor? && run.RanIn? && rd.reader.Coprocessor? {
      JoinedWordsByShape(rd.reader.entry, cfg.aarch64, run.ev.words);
      MidrAfterStep(cfg, SlotsAfter(cfg, ioctls, script, o.n), ioctls[o.n], script[o.n], o.i);
      assert SlotsAfter(cfg, ioctls, script, o.n + 1)
          == StepSlots(cfg, SlotsAfter(cfg, ioctls, script, o.n), ioctls[o.n], script[o.n])
        by { NextSlots(cfg, ioctls, script, o.n); }
    }
  }

  lemma NextSlots(cfg: Config, ioctls: seq<UsedIoctl>, script: seq<Step>, n: nat)
    requires Scripted(ioctls, script) && n < |ioctls|
    ensures SlotsAfter(cfg, ioctls, script, n + 1)
         == StepSlots(cfg, SlotsAfter(cfg, ioctls, script, n), ioctls[n], script[n])
  {
    hide StepSlots;
  }

  /** Trap attribution: in every run, a result reports a trap exactly when its register has a working
      reader, the read ran on that CPU, and one of that CPU's own accesses trapped or other code
      trapped since the flag was last cleared. No CPU is ever charged with another CPU's trap; and
      when no other code traps, a trap is reported exactly for an own one. A reported trap names the
      CPU that it is charged to. */
  lemma {:induction false} TrapsAttributed(cfg: Config, ioctls: seq<UsedIoctl>, script: seq<Step>, m: nat)
    requires Scripted(ioctls, script) && m < |Origins(script, |ioctls|)|
    ensures |ResultsAfter(cfg, ioctls, script, |ioctls|)| == |Origins(script, |ioctls|)|
    ensures ResultsAfter(cfg, ioctls, script, |ioctls|)[m].status == UndefInst
       <==> var o := Origins(script, |ioctls|)[m];
            var run := LastRun(cfg, ioctls[o.n].cpu, script[o.n].cpus, o.i);
            && HasWorkingReader(cfg, ioctls[o.n]) && run.RanIn?
            && (Trapped(run.ev) || ForeignTrap(cfg, ioctls[o.n].cpu, script[o.n].cpus, run.turn))
    ensures NoStrays(script[Origins(script, |ioctls|)[m].n].cpus) ==>
              (ResultsAfter(cfg, ioctls, script, |ioctls|)[m].status == UndefInst
               <==> var o := Origins(script, |ioctls|)[m];
                    var run := LastRun(cfg, ioctls[o.n].cpu, script[o.n].cpus, o.i);
                    HasWorkingReader(cfg, ioctls[o.n]) && run.RanIn? && Trapped(run.ev))
    ensures ResultsAfter(cfg, ioctls, script, |ioctls|)[m].status == UndefInst ==>
              ResultsAfter(cfg, ioctls, script, |ioctls|)[m].cpu == Origins(script, |ioctls|)[m].i
  {
    hide ReaderOfRead, LastRun, ResultsAfter, ForeignTrap, NoStrays, PendingAt, Charged, RanOn;
    EveryResultFaithful(cfg, ioctls, script, m);
    var o := Origins(script, |ioctls|)[m];
    var x, evs := ioctls[o.n], script[o.n].cpus;
    var run := LastRun(cfg, x.cpu, evs, o.i);
    if HasWorkingReader(cfg, x) && run.RanIn? {
      ChargedExactly(cfg, ReaderOfRead(cfg, x).reader.entry, x.cpu, evs, run.turn);
      QuietTurn(cfg, x.cpu, evs, run.turn);
      CpuAttributed(cfg, ioctls, script, m);
      RanNow(cfg, ioctls, script, o.n, o.i);
    }
  }

  lemma RanNow(cfg: Config, ioctls: seq<UsedIoctl>, script: seq<Step>, n: nat, i: nat)
    requires Scripted(ioctls, script) && n < |ioctls| && i < MS_MAX_CPUS && RanAt(cfg, ioctls, script, n, i)
    ensures RanOn(cfg, ioctls, script, n + 1, i)
  {}

  lemma QuietTurn(cfg: Config, pcpu: u32, evs: seq<CpuEvent>, t: nat)
    requires t < |evs|
    ensures NoStrays(evs) ==> !ForeignTrap(cfg, pcpu, evs, t)
  {}

  /** The read reaches a coprocessor reader of a known shape. */
  ghost predicate HasWorkingReader(cfg: Config, x: UsedIoctl) {
    var rd := ReaderOfRead(cfg, x);
    rd.HasReaderFor? && rd.reader.Coprocessor? && Supported(rd.reader.entry)
  }

  /** With a trap of other code the charge can be wrong: here a read of CPU 0 that does not trap is
      reported as a trap. */
  lemma ForeignTrapIsCharged(cfg: Config, x: UsedIoctl, ev: CpuEvent)
    requires cfg.smp && x.cpu == 0 && HasWorkingReader(cfg, x)
    requires Runs(cfg, ev) && !Trapped(ev) && ev.stray
    ensures ResultsAfter(cfg, [x], [Step(true, false, seq(MS_MAX_CPUS, _ => ev))], 1)[0].status == UndefInst
  {
    hide ReaderOfRead, HasWorkingReader, ForeignTrap, NoStrays, ResultsAfter;
    var script := [Step(true, false, seq(MS_MAX_CPUS, _ => ev))];
    var origins := Origins(script, 1);
    assert Origins(script, 0) == [];
    assert origins[0] == Origin(0, 0);
    TrapsAttributed(cfg, [x], script, 0);
    StrayInTurn(cfg, 0, script[0].cpus, 0);
  }

  lemma StrayInTurn(cfg: Config, pcpu: u32, evs: seq<CpuEvent>, t: nat)
    requires t < |evs| && evs[t].stray
    ensures ForeignTrap(cfg, pcpu, evs, t)
  {
    assert NoneRan(cfg, evs, t, t);
  }

  // ----- the MIDR that device reads inherit -----

  /** The MIDR of the last coprocessor read that ran on slot `i` before read `n`, or 0. */
  ghost function LastMidr(cfg: Config, ioctls: seq<UsedIoctl>, script: seq<Step>, n: nat, i: nat): u32
    requires Scripted(ioctls, script) && n <= |ioctls| && i < MS_MAX_CPUS
  {
    if n == 0 then 0
    else
      var rd := ReaderOfRead(cfg, ioctls[n - 1]);
      var run := LastRun(cfg, ioctls[n - 1].cpu, script[n - 1].cpus, i);
      if Delivered(script[n - 1]) && rd.HasReaderFor? && rd.reader.Coprocessor? && run.RanIn? then run.ev.midr
      else LastMidr(cfg, ioctls, script, n - 1, i)
  }

  lemma {:induction false} MidrInSlot(cfg: Config, ioctls: seq<UsedIoctl>, script: seq<Step>, n: nat, i: nat)
    requires Scripted(ioctls, script) && n <= |ioctls| && i < MS_MAX_CPUS
    ensures SlotsAfter(cfg, ioctls, script, n)[i].midr == LastMidr(cfg, ioctls, script, n, i)
  {
    hide ReaderFor, LastRun, Stored64, Stored1, Stored2;
    if n > 0 {
      MidrInSlot(cfg, ioctls, script, n - 1, i);
      MidrAfterStep(cfg, SlotsAfter(cfg, ioctls, script, n - 1), ioctls[n - 1], script[n - 1], i);
    }
  }

  lemma {:induction false} MidrAfterStep(cfg: Config, slots: seq<MsData>, x: UsedIoctl, s: Step, i: nat)
    requires |slots| == |s.cpus| == MS_MAX_CPUS && i < MS_MAX_CPUS
    ensures StepSlots(cfg, slots, x, s)[i].midr
         == if Delivered(s) && ReaderOfRead(cfg, x).HasReaderFor? && ReaderOfRead(cfg, x).reader.Coprocessor?
               && LastRun(cfg, x.cpu, s.cpus, i).RanIn?
            then LastRun(cfg, x.cpu, s.cpus, i).ev.midr else slots[i].midr
  {
    hide ReaderFor, LastRun, Stored64, Stored1, Stored2;
    var rd := ReaderOfRead(cfg, x);
    if Delivered(s) && rd.HasReaderFor? {
      KickSlot(cfg, rd.reader, Reset(slots), x.cpu, s.cpus, i);
    }
  }

  /** For a device part the gate is open exactly when the MIDR is 0. */
  lemma {:induction false} DeviceGate(midr: u32, part: u32)
    requires 8 <= part < 32
    ensures Gate(midr, part) <==> midr == 0
  {
    hide PrimaryPart;
  }

  /** A device read does not set the MIDR, and the join admits its rows only with MIDR 0. So the
      result of device read `n` on CPU `i` can answer a request exactly when no coprocessor read
      that ran earlier in the same query left a MIDR in that CPU's slot. */
  lemma {:induction false} DeviceResultAdmitted(cfg: Config, ioctls: seq<UsedIoctl>, script: seq<Step>, n: nat,
      i: nat, part: u32)
    requires Scripted(ioctls, script) && n < |ioctls| && i < MS_MAX_CPUS
    requires IsGicPart(ioctls[n].part) && 8 <= part < 32
    ensures Gate(SlotResult(ioctls[n], SlotsAfter(cfg, ioctls, script, n + 1)[i]).midr, part)
       <==> LastMidr(cfg, ioctls, script, n, i) == 0
  {
    hide LastRun, StepSlots, Gate, SlotsAfter;
    MidrInSlot(cfg, ioctls, script, n + 1, i);
    DeviceGate(SlotsAfter(cfg, ioctls, script, n + 1)[i].midr, part);
  }

  /** A query that reads devices only always has its device results admitted. */
  lemma {:induction false} DeviceOnlyRunsAdmitted(cfg: Config, ioctls: seq<UsedIoctl>, script: seq<Step>, n: nat,
      i: nat)
    requires Scripted(ioctls, script) && n <= |ioctls| && i < MS_MAX_CPUS
    requires forall k :: 0 <= k < |ioctls| ==> IsGicPart(ioctls[k].part)
    ensures LastMidr(cfg, ioctls, script, n, i) == 0
  {
    hide LastRun;
    if n > 0 {
      DeviceOnlyRunsAdmitted(cfg, ioctls, script, n - 1, i);
    }
  }

  // ----- which device register a row reads -----

  /** The base address of a device part. */
  function BaseOf(cfg: Config, part: u32): nat
    requires IsGicPart(part)
  {
    if part == GICC_V2 then cfg.giccBase
    else if part == GICD_V2 then cfg.gicdBase
    else if part == GICH_V2 then cfg.gichBase
    else cfg.gicvBase
  }

  /** The read that a request for the expanded row leads to. */
  function ReadOf(t: Table, row: BitfieldInfo, k: nat, n: nat, info: MatchInfo): UsedIoctl {
    IoctlFor(RequestFor(ExpandRow(t, row, k, n), info))
  }

  /** The part of a device read is the one that the row's uid decodes to: that of the row's own table
      exactly when the excess bits of the register are already set in it. */
  lemma {:induction false} DeviceReadPart(t: Table, row: BitfieldInfo, k: nat, n: nat, info: MatchInfo)
    requires t.part < 32 && n < 0x1_0000 && row.uid < 0x1_0000
    ensures ReadOf(t, row, k, n, info).part == Or(t.part, row.registerUid / 0x800 % 32)
    ensures ReadOf(t, row, k, n, info).part == t.part <==> Or(t.part, row.registerUid / 0x800 % 32) == t.part
  {
    hide Mscode, MscodePart, MscodeField, MscodeInstruction, Or, Low, Decimal, CreateUid;
    var field: u32 := if Plain(t, row) then row.uid else n;
    PartOfSmallField(t.part, row.registerUid, field);
    PartInWidth(t.part, row.registerUid / 0x800);
  }

  /** The reader of a device read: its base is that of the read's part, its offset four times `k` past
      the row's register, whatever that register is. */
  lemma {:induction false} DeviceReadReader(cfg: Config, t: Table, row: BitfieldInfo, k: nat, n: nat, info: MatchInfo)
    requires t.tableType == TypeMm && 8 <= t.part < 32
    ensures IsGicPart(ReadOf(t, row, k, n, info).part) ==>
              ReaderOfRead(cfg, ReadOf(t, row, k, n, info))
              == HasReaderFor(Gic(BaseOf(cfg, ReadOf(t, row, k, n, info).part), (row.registerUid + 4 * k) % 0x1_0000))
  {
    hide Mscode, MscodePart, MscodeField, Or, Decimal, CreateUid;
    DeviceRegisterCode(t, row, k, n);
  }

  /** Address fidelity of device rows: copy `k` of a row is read four times `k` past the row's register,
      from the base of the row's own table exactly when the excess bits of the register are already
      set in that table's part. */
  lemma {:induction false} DeviceReadAddress(cfg: Config, t: Table, row: BitfieldInfo, k: nat, n: nat, info: MatchInfo)
    requires t.tableType == TypeMm && IsGicPart(t.part) && n < 0x1_0000 && row.uid < 0x1_0000
    ensures ReadOf(t, row, k, n, info).part == Or(t.part, row.registerUid / 0x800 % 32)
    ensures ReadOf(t, row, k, n, info).part == t.part <==> Or(t.part, row.registerUid / 0x800 % 32) == t.part
    ensures IsGicPart(ReadOf(t, row, k, n, info).part) ==>
              ReaderOfRead(cfg, ReadOf(t, row, k, n, info))
              == HasReaderFor(Gic(BaseOf(cfg, ReadOf(t, row, k, n, info).part), (row.registerUid + 4 * k) % 0x1_0000))
  {
    hide ReadOf, Or, ReaderOfRead;
    DeviceReadPart(t, row, k, n, info);
    DeviceReadReader(cfg, t, row, k, n, info);
  }

  /** GICC_DIR, the deactivate register of the CPU interface at offset 0x1000, is read at that offset
      of the virtual interface control block. */
  lemma {:induction false} GiccDirReadsElsewhere(cfg: Config, t: Table, row: BitfieldInfo, n: nat, info: MatchInfo)
    requires t.tableType == TypeMm && t.part == GICC_V2 && n < 0x1_0000
    requires row.registerUid == 0x1000 && row.uid < 0x1_0000
    ensures ReaderOfRead(cfg, ReadOf(t, row, 0, n, info)) == HasReaderFor(Gic(cfg.gichBase, 0x1000))
  {
    hide ReadOf, ReaderOfRead, Or;
    ExampleBits();
    DeviceReadAddress(cfg, t, row, 0, n, info);
  }
}
