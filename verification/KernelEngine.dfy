/** The kernel read engine: the trap flag, one CPU's turn, the walk over the CPUs, and the calls
    that carry a result record to the driver and back. */
module KernelEngine {
  import opened Bits
  import opened Parse
  import opened FuncTable

  const MS_CPU_ALL: u32 := 0xFFFF_FFFF

  /** What the machine does when it is one CPU's turn: whether the CPU can be brought up and called,
      whether its accesses trap, and what they return; and whether, since the turn before, an
      undefined instruction of some other code ran the trap hook, which does not look at who trapped.
      All of it is arbitrary. */
  datatype CpuEvent = CpuEvent(
    online: bool, upFails: bool, callFails: bool, stray: bool,
    midr: u32, midrTraps: bool, words: Words, readTraps: bool, memory: nat -> u32)

  /** What does not change during a run. A base address of 0 is the null pointer. */
  datatype Config = Config(
    smp: bool, aarch64: bool, funcTable: seq<FuncEntry>,
    giccBase: nat, gicdBase: nat, gichBase: nat, gicvBase: nat)

  /** Which callback runs on the CPUs, with what. */
  datatype Reader = Coprocessor(entry: FuncEntry) | Gic(base: nat, offset: nat)

  // ----- specification of one CPU's turn -----

  /** The callback gets to run on the CPU. */
  predicate Runs(cfg: Config, ev: CpuEvent) {
    !cfg.smp || ((ev.online || !ev.upFails) && !ev.callFails)
  }

  /** One of the CPU's own accesses trapped. */
  predicate Trapped(ev: CpuEvent) {
    ev.midrTraps || ev.readTraps
  }

  /** The trap flag is set when the CPU looks at it: still from before, by other code, or by one of
      the CPU's own accesses. */
  predicate Charged(flag: bool, ev: CpuEvent) {
    flag || ev.stray || Trapped(ev)
  }

  /** The trap flag after a turn: only a reader of a known shape that gets to run consumes it. */
  ghost function FlagAfter(cfg: Config, rd: Reader, flag: bool, ev: CpuEvent): bool {
    if Runs(cfg, ev) && rd.Coprocessor? then !Supported(rd.entry) && (flag || ev.stray || ev.midrTraps)
    else flag || ev.stray
  }

  /** The trap flag before the turn of CPU `n` in a request for all CPUs; it is clear at first. */
  ghost function FlagBefore(cfg: Config, rd: Reader, evs: seq<CpuEvent>, n: nat): bool
    requires n <= |evs|
  {
    n > 0 && FlagAfter(cfg, rd, FlagBefore(cfg, rd, evs, n - 1), evs[n - 1])
  }

  /** The slot that the callback writes when it runs in the turn of `cpu`. */
  function SlotOf(cfg: Config, cpu: nat): nat {
    if cfg.smp then cpu else 0
  }

  /** The slot after its CPU has run the callback, with the trap flag that the turn began with. */
  ghost function AfterRead(cfg: Config, rd: Reader, d: MsData, slot: nat, flag: bool, ev: CpuEvent): MsData
    requires slot < MS_MAX_CPUS
  {
    match rd
    case Coprocessor(e) =>
      MsData(slot, ev.midr, d.in1, d.in2,
             Stored64(e, cfg.aarch64, ev.words), Stored1(e, cfg.aarch64, ev.words), Stored2(e, cfg.aarch64, ev.words),
             if !Supported(e) then TableError else if Charged(flag, ev) then UndefInst else Success)
    case Gic(base, offset) =>
      if base == 0 then d
      else MsData(slot, d.midr, d.in1, d.in2, 0, ev.memory(base + offset), 0, Success)
  }

  lemma StrayIsCharged(cfg: Config, rd: Reader, d: MsData, slot: nat, flag: bool, ev: CpuEvent)
    requires slot < MS_MAX_CPUS
    ensures AfterRead(cfg, rd, d, slot, flag || ev.stray, ev) == AfterRead(cfg, rd, d, slot, flag, ev)
  {}

  /** A slot with no words yet after a reader of one or two outputs has filled it. */
  ghost function Read(cfg: Config, e: FuncEntry, d: MsData, flag: bool, ev: CpuEvent): MsData {
    d.(out64 := Stored64(e, cfg.aarch64, ev.words), out1 := Stored1(e, cfg.aarch64, ev.words),
       out2 := Stored2(e, cfg.aarch64, ev.words),
       status := if !Supported(e) then TableError else if flag || ev.readTraps then UndefInst else Success)
  }

  lemma UnknownStoresNothing(e: FuncEntry, aarch64: bool, w: Words)
    requires e.prototype == UnknownPrototype
    ensures Stored64(e, aarch64, w) == 0 && Stored1(e, aarch64, w) == 0 && Stored2(e, aarch64, w) == 0
  {}

  /** All slots after the turn of `cpu`. */
  ghost function AfterTurn(cfg: Config, rd: Reader, slots: seq<MsData>, cpu: nat, flag: bool, ev: CpuEvent): seq<MsData>
    requires |slots| == MS_MAX_CPUS && cpu < MS_MAX_CPUS
  {
    if cfg.smp && !ev.online && ev.upFails then slots[cpu := slots[cpu].(status := Smp)]
    else if cfg.smp && ev.callFails then slots[cpu := slots[cpu].(status := SmpSingle)]
    else
      var slot := SlotOf(cfg, cpu);
      slots[slot := AfterRead(cfg, rd, slots[slot], slot, flag, ev)]
  }

  /** All slots after the turns of the first `n` CPUs. */
  ghost function AfterTurns(cfg: Config, rd: Reader, slots: seq<MsData>, evs: seq<CpuEvent>, n: nat): (r: seq<MsData>)
    requires |slots| == |evs| == MS_MAX_CPUS && n <= MS_MAX_CPUS
    ensures |r| == MS_MAX_CPUS
  {
    if n == 0 then slots
    else AfterTurn(cfg, rd, AfterTurns(cfg, rd, slots, evs, n - 1), n - 1, FlagBefore(cfg, rd, evs, n - 1), evs[n - 1])
  }

  /** All slots after a request for one CPU or for all of them; a CPU number that is too large
      reaches no slot. */
  ghost function AfterKick(cfg: Config, rd: Reader, slots: seq<MsData>, pcpu: u32, evs: seq<CpuEvent>): (r: seq<MsData>)
    requires |slots| == |evs| == MS_MAX_CPUS
    ensures |r| == MS_MAX_CPUS
  {
    if pcpu == MS_CPU_ALL then AfterTurns(cfg, rd, slots, evs, MS_MAX_CPUS)
    else if pcpu < MS_MAX_CPUS then AfterTurn(cfg, rd, slots, pcpu, false, evs[pcpu])
    else slots
  }

  // ----- records -----

  /** The record that user mode passes to the driver (`ms_data_cpu`). */
  class MsDataCpu {
    var code: u32
    var pcpu: u32
    var partNumber: u32
    const cpu: array<MsData>

    constructor ()
      ensures code == 0 && pcpu == 0 && partNumber == 0
      ensures fresh(cpu) && cpu.Length == MS_MAX_CPUS && cpu[..] == seq(MS_MAX_CPUS, i => ZERO_DATA)
    {
      code, pcpu, partNumber := 0, 0, 0;
      cpu := new MsData[MS_MAX_CPUS](i => ZERO_DATA);
    }

    /** `driver_results`, its loop: no CPU has a result yet. */
    method ResetStatus()
      requires cpu.Length == MS_MAX_CPUS
      modifies cpu
      ensures cpu[..] == Reset(old(cpu[..]))
    {
      var i := 0;
      while i < MS_MAX_CPUS
        invariant 0 <= i <= MS_MAX_CPUS
        invariant forall j :: 0 <= j < i ==> cpu[j] == old(cpu[j]).(status := NoResult)
        invariant forall j :: i <= j < MS_MAX_CPUS ==> cpu[j] == old(cpu[j])
      {
        cpu[i] := cpu[i].(status := NoResult);
        i := i + 1;
      }
    }
  }

  ghost function Reset(slots: seq<MsData>): (r: seq<MsData>)
    ensures |r| == |slots|
    ensures forall i :: 0 <= i < |slots| ==> r[i] == slots[i].(status := NoResult)
  {
    seq(|slots|, i requires 0 <= i < |slots| => slots[i].(status := NoResult))
  }

  /** The driver's working copy (`co15_result_cpu_wrapper`). */
  class Wrapper {
    var foundIndex: nat
    var baseAddr: nat
    var pcpu: u32
    var code: u32
    const cpu: array<MsData>

    constructor ()
      ensures foundIndex == 0 && baseAddr == 0 && pcpu == 0 && code == 0
      ensures fresh(cpu) && cpu.Length == MS_MAX_CPUS
    {
      foundIndex, baseAddr, pcpu, code := 0, 0, 0, 0;
      cpu := new MsData[MS_MAX_CPUS](i => ZERO_DATA);
    }

    /** `unpack_result_wrapper`. */
    method Unpack(user: MsDataCpu)
      requires cpu.Length == user.cpu.Length == MS_MAX_CPUS && cpu != user.cpu
      modifies `pcpu, `code, cpu
      ensures cpu[..] == user.cpu[..] && pcpu == user.pcpu && code == user.code
    {
      var i := 0;
      while i < MS_MAX_CPUS
        invariant 0 <= i <= MS_MAX_CPUS
        invariant forall j :: 0 <= j < i ==> cpu[j] == user.cpu[j]
      {
        cpu[i] := cpu[i].(in1 := user.cpu[i].in1);
        cpu[i] := cpu[i].(in2 := user.cpu[i].in2);
        cpu[i] := cpu[i].(out64 := user.cpu[i].out64);
        cpu[i] := cpu[i].(out1 := user.cpu[i].out1);
        cpu[i] := cpu[i].(out2 := user.cpu[i].out2);
        cpu[i] := cpu[i].(cpu := user.cpu[i].cpu);
        cpu[i] := cpu[i].(midr := user.cpu[i].midr);
        cpu[i] := cpu[i].(status := user.cpu[i].status);
        i := i + 1;
      }
      pcpu := user.pcpu;
      code := user.code;
    }

    /** `repack_result_wrapper`: the slots go back, the caller's code, CPU and part stay. */
    method Repack(user: MsDataCpu)
      requires cpu.Length == user.cpu.Length == MS_MAX_CPUS && cpu != user.cpu
      modifies user.cpu
      ensures user.cpu[..] == cpu[..] && cpu[..] == old(cpu[..])
    {
      var i := 0;
      while i < MS_MAX_CPUS
        invariant 0 <= i <= MS_MAX_CPUS && cpu[..] == old(cpu[..])
        invariant forall j :: 0 <= j < i ==> user.cpu[j] == cpu[j]
      {
        user.cpu[i] := user.cpu[i].(in1 := cpu[i].in1);
        user.cpu[i] := user.cpu[i].(in2 := cpu[i].in2);
        user.cpu[i] := user.cpu[i].(out64 := cpu[i].out64);
        user.cpu[i] := user.cpu[i].(out1 := cpu[i].out1);
        user.cpu[i] := user.cpu[i].(out2 := cpu[i].out2);
        user.cpu[i] := user.cpu[i].(cpu := cpu[i].cpu);
        user.cpu[i] := user.cpu[i].(midr := cpu[i].midr);
        user.cpu[i] := user.cpu[i].(status := cpu[i].status);
        i := i + 1;
      }
    }
  }

  // ----- the driver -----

  class Driver {
    const cfg: Config
    /** `g_undef_flag`. */
    var undefFlag: nat

    constructor (cfg: Config)
      ensures this.cfg == cfg
    {
      this.cfg := cfg;
      undefFlag := 0;
    }

    ghost predicate Pending()
      reads this
    {
      undefFlag == 1
    }

    /** `undef_hook`: whoever trapped, the flag is set. */
    method UndefHook()
      modifies this
      ensures Pending()
    {
      undefFlag := 1;
    }

    /** An access that may trap: the hook runs and the access is skipped. */
    method Access(traps: bool)
      modifies this
      ensures Pending() == (old(Pending()) || traps)
    {
      if traps {
        UndefHook();
      }
    }

    /** `set_undef_flag`: consumes the flag. */
    method SetUndefFlag(cpu: array<MsData>, slot: nat)
      requires slot < cpu.Length
      modifies this, cpu
      ensures !Pending()
      ensures cpu[..] ==
              old(cpu[..])[slot := old(cpu[slot]).(status := if old(Pending()) then UndefInst else Success)]
    {
      if undefFlag == 1 {
        cpu[slot] := cpu[slot].(status := UndefInst);
        undefFlag := 0;
      } else {
        cpu[slot] := cpu[slot].(status := Success);
      }
    }

    /** `call_func_ptr`, the readers with one output. */
    method ReadOneOutput(e: FuncEntry, cpu: array<MsData>, slot: nat, ev: CpuEvent)
      requires e.prototype == Out1 && slot < cpu.Length
      requires cpu[slot].out64 == 0 && cpu[slot].out1 == 0 && cpu[slot].out2 == 0
      modifies this, cpu
      ensures Pending() == (!Supported(e) && old(Pending()))
      ensures cpu[..] == old(cpu[..])[slot := Read(cfg, e, old(cpu[slot]), old(Pending()), ev)]
    {
      if e.dataSize == Bits32 {
        Access(ev.readTraps);
        cpu[slot] := cpu[slot].(out1 := ev.words.val1);
        SetUndefFlag(cpu, slot);
      } else if e.dataSize == Bits64 {
        Access(ev.readTraps);
        cpu[slot] := cpu[slot].(out64 := ev.words.val64);
        SetUndefFlag(cpu, slot);
      } else if e.dataSize == BitsArch {
        Access(ev.readTraps);
        if cfg.aarch64 {
          cpu[slot] := cpu[slot].(out64 := ev.words.val64);
        } else {
          cpu[slot] := cpu[slot].(out1 := ev.words.val1);
        }
        SetUndefFlag(cpu, slot);
      } else {
        cpu[slot] := cpu[slot].(status := TableError);
      }
    }

    /** `call_func_ptr`, the readers with two outputs. */
    method ReadTwoOutputs(e: FuncEntry, cpu: array<MsData>, slot: nat, ev: CpuEvent)
      requires e.prototype == Out2 && slot < cpu.Length
      requires cpu[slot].out64 == 0 && cpu[slot].out1 == 0 && cpu[slot].out2 == 0
      modifies this, cpu
      ensures Pending() == (!Supported(e) && old(Pending()))
      ensures cpu[..] == old(cpu[..])[slot := Read(cfg, e, old(cpu[slot]), old(Pending()), ev)]
    {
      if e.dataSize == Bits32 {
        Access(ev.readTraps);
        cpu[slot] := cpu[slot].(out1 := ev.words.val1);
        cpu[slot] := cpu[slot].(out2 := ev.words.val2);
        SetUndefFlag(cpu, slot);
      } else if e.dataSize == BitsArch {
        Access(ev.readTraps);
        if cfg.aarch64 {
          cpu[slot] := cpu[slot].(out64 := ev.words.val64);
        } else {
          cpu[slot] := cpu[slot].(out1 := ev.words.val1);
        }
        cpu[slot] := cpu[slot].(out2 := ev.words.val2);
        SetUndefFlag(cpu, slot);
      } else {
        cpu[slot] := cpu[slot].(status := TableError);
      }
    }

    /** `call_func_ptr`, running on one CPU; a stray trap of this turn has already run the hook. The
        flag is clear afterwards unless the entry has an unknown shape: then nothing consumes it. */
    method CallFuncPtr(w: Wrapper, slot: nat, ev: CpuEvent)
      requires w.foundIndex < |cfg.funcTable| && slot < MS_MAX_CPUS == w.cpu.Length
      requires ev.stray ==> Pending()
      modifies this, w.cpu
      ensures w.cpu[..] == old(w.cpu[..])[slot :=
                AfterRead(cfg, Coprocessor(cfg.funcTable[w.foundIndex]), old(w.cpu[slot]), slot, old(Pending()), ev)]
      ensures Pending() == (!Supported(cfg.funcTable[w.foundIndex]) && (old(Pending()) || ev.midrTraps))
    {
      hide Stored64, Stored1, Stored2;
      var e := cfg.funcTable[w.foundIndex];
      var cpu := w.cpu;
      cpu[slot] := cpu[slot].(out64 := 0);
      cpu[slot] := cpu[slot].(out1 := 0);
      cpu[slot] := cpu[slot].(out2 := 0);
      cpu[slot] := cpu[slot].(cpu := slot);
      Access(ev.midrTraps);
      cpu[slot] := cpu[slot].(midr := ev.midr);
      match e.prototype {
        case Out1 => ReadOneOutput(e, cpu, slot, ev);
        case Out2 => ReadTwoOutputs(e, cpu, slot, ev);
        case UnknownPrototype =>
          UnknownStoresNothing(e, cfg.aarch64, ev.words);
          cpu[slot] := cpu[slot].(status := TableError);
      }
    }

    /** `gic_bar_read`, running on one CPU. The MIDR of the slot is not touched. */
    method GicBarRead(w: Wrapper, slot: nat, ev: CpuEvent)
      requires slot < MS_MAX_CPUS == w.cpu.Length
      modifies w.cpu
      ensures w.cpu[..] == old(w.cpu[..])[slot :=
                AfterRead(cfg, Gic(w.baseAddr, MscodeField(w.code)), old(w.cpu[slot]), slot, false, ev)]
    {
      if w.baseAddr == 0 {
        return;
      }
      var cpu := w.cpu;
      cpu[slot] := cpu[slot].(out64 := 0);
      cpu[slot] := cpu[slot].(out1 := 0);
      cpu[slot] := cpu[slot].(out2 := 0);
      cpu[slot] := cpu[slot].(cpu := slot);
      var value := ev.memory(w.baseAddr + MscodeField(w.code));
      cpu[slot] := cpu[slot].(out1 := value);
      cpu[slot] := cpu[slot].(status := Success);
    }

    /** The reader that a callback on this wrapper is. */
    ghost function ReaderOf(w: Wrapper, gic: bool): Reader
      requires !gic ==> w.foundIndex < |cfg.funcTable|
      reads w
    {
      if gic then Gic(w.baseAddr, MscodeField(w.code)) else Coprocessor(cfg.funcTable[w.foundIndex])
    }

    /** The callback, in the slot that it picks. */
    method RunCallback(w: Wrapper, gic: bool, slot: nat, ev: CpuEvent)
      requires slot < MS_MAX_CPUS == w.cpu.Length
      requires !gic ==> w.foundIndex < |cfg.funcTable|
      requires ev.stray ==> Pending()
      modifies this, w.cpu
      ensures w.cpu[..] ==
              old(w.cpu[..])[slot := AfterRead(cfg, ReaderOf(w, gic), old(w.cpu[slot]), slot, old(Pending()), ev)]
      ensures Pending() ==
              if gic then old(Pending())
              else !Supported(cfg.funcTable[w.foundIndex]) && (old(Pending()) || ev.midrTraps)
    {
      hide Stored64, Stored1, Stored2;
      if gic {
        GicBarRead(w, slot, ev);
      } else {
        CallFuncPtr(w, slot, ev);
      }
    }

    /** `cpu_online_wrapper`: brings the CPU up and runs the callback there. The number that is one too
        large passes the caller's check; its status is then written behind the last slot. */
    method CpuOnlineWrapper(w: Wrapper, gic: bool, cpu: nat, ev: CpuEvent) returns (result: int, inBounds: bool)
      requires w.cpu.Length == MS_MAX_CPUS
      requires !gic ==> w.foundIndex < |cfg.funcTable|
      modifies this, w.cpu
      ensures inBounds <==> cpu < MS_MAX_CPUS
      ensures inBounds ==> w.cpu[..] == AfterTurn(cfg, ReaderOf(w, gic), old(w.cpu[..]), cpu, old(Pending()), ev)
      ensures inBounds ==> Pending() == FlagAfter(cfg, ReaderOf(w, gic), old(Pending()), ev)
      ensures inBounds ==> result == if Runs(cfg, ev) then 0 else -1
    {
      hide AfterRead;
      Access(ev.stray);
      if cpu >= MS_MAX_CPUS {
        return -1, false;
      }
      if cfg.smp {
        if !ev.online {
          if ev.upFails {
            w.cpu[cpu] := w.cpu[cpu].(status := Smp);
            return -1, true;
          }
        }
        if ev.callFails {
          w.cpu[cpu] := w.cpu[cpu].(status := SmpSingle);
          return -1, true;
        }
        StrayIsCharged(cfg, ReaderOf(w, gic), w.cpu[cpu], cpu, old(Pending()), ev);
        RunCallback(w, gic, cpu, ev);
      } else {
        StrayIsCharged(cfg, ReaderOf(w, gic), w.cpu[0], 0, old(Pending()), ev);
        RunCallback(w, gic, 0, ev);
      }
      return 0, true;
    }

    /** `on_each_cpu_kick`: every slot that it reaches exists, unless the CPU number is that of the
        slot after the last. */
    method OnEachCpuKick(w: Wrapper, gic: bool, evs: seq<CpuEvent>) returns (status: int, inBounds: bool)
      requires |evs| == MS_MAX_CPUS == w.cpu.Length
      requires !gic ==> w.foundIndex < |cfg.funcTable|
      requires !Pending()
      modifies this, w.cpu
      ensures inBounds <==> w.pcpu != MS_MAX_CPUS
      ensures inBounds ==> w.cpu[..] == AfterKick(cfg, ReaderOf(w, gic), old(w.cpu[..]), w.pcpu, evs)
      ensures inBounds ==> status == if w.pcpu == MS_CPU_ALL || w.pcpu < MS_MAX_CPUS then 0 else -1
    {
      hide AfterTurn, FlagAfter;
      if w.pcpu == MS_CPU_ALL {
        var i := 0;
        while i < MS_MAX_CPUS
          invariant 0 <= i <= MS_MAX_CPUS && Pending() == FlagBefore(cfg, ReaderOf(w, gic), evs, i)
          invariant w.cpu[..] == AfterTurns(cfg, ReaderOf(w, gic), old(w.cpu[..]), evs, i)
        {
          var result, within := CpuOnlineWrapper(w, gic, i, evs[i]);
          i := i + 1;
        }
      } else {
        if w.pcpu > MS_MAX_CPUS {
          return -1, true;
        } else {
          var ev := evs[if w.pcpu < MS_MAX_CPUS then w.pcpu else 0];
          var result, within := CpuOnlineWrapper(w, gic, w.pcpu, ev);
          return 0, within;
        }
      }
      return 0, true;
    }
  }
}
