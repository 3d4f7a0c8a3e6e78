/** Whole requests to the driver, and runs of them over one reused result record. */
module KernelRun {
  import opened Bits
  import opened Parse
  import opened Support
  import opened FuncTable
  import opened KernelEngine

  // ----- one request -----

  datatype MaybeReader = NoReader | HasReaderFor(reader: Reader)

  predicate IsGicPart(part: u32) {
    part == GICC_V2 || part == GICD_V2 || part == GICH_V2 || part == GICV_V2
  }

  /** The reader that a request reaches: a table entry, or a device register. */
  ghost function ReaderFor(cfg: Config, gic: bool, code: u32, part: u32): MaybeReader {
    if !gic then
      (if HasReader(cfg.funcTable, code) then HasReaderFor(Coprocessor(EntryFor(cfg.funcTable, code))) else NoReader)
    else if part == GICC_V2 then HasReaderFor(Gic(cfg.giccBase, MscodeField(code)))
    else if part == GICD_V2 then HasReaderFor(Gic(cfg.gicdBase, MscodeField(code)))
    else if part == GICH_V2 then HasReaderFor(Gic(cfg.gichBase, MscodeField(code)))
    else if part == GICV_V2 then HasReaderFor(Gic(cfg.gicvBase, MscodeField(code)))
    else NoReader
  }

  /** The slots after a request; without a reader nothing is copied back. */
  ghost function AfterRequest(cfg: Config, gic: bool, code: u32, part: u32, pcpu: u32, slots: seq<MsData>,
      evs: seq<CpuEvent>): (r: seq<MsData>)
    requires |slots| == |evs| == MS_MAX_CPUS
    ensures |r| == MS_MAX_CPUS
  {
    var rd := ReaderFor(cfg, gic, code, part);
    if rd == NoReader then slots else AfterKick(cfg, rd.reader, slots, pcpu, evs)
  }

  /** The request touches no memory behind the last slot: its CPU number is not the one that is one too
      large, or it has no reader and never gets to the CPUs. */
  ghost predicate SlotInRange(cfg: Config, gic: bool, code: u32, part: u32, pcpu: u32) {
    pcpu != MS_MAX_CPUS || ReaderFor(cfg, gic, code, part) == NoReader
  }

  /** `call_func_return_results`. */
  method CallFuncReturnResults(d: Driver, user: MsDataCpu, evs: seq<CpuEvent>) returns (result: int, inBounds: bool)
    requires |evs| == MS_MAX_CPUS == user.cpu.Length && !d.Pending()
    modifies d, user.cpu
    ensures inBounds <==> SlotInRange(d.cfg, false, user.code, user.partNumber, user.pcpu)
    ensures inBounds ==>
              user.cpu[..] == AfterRequest(d.cfg, false, user.code, user.partNumber, user.pcpu, old(user.cpu[..]), evs)
    ensures inBounds && result != 0 ==> user.cpu[..] == old(user.cpu[..])
  {
    var local := new Wrapper();
    var found, index := FindFunctionIndex(d.cfg.funcTable, user.code);
    if found != 0 {
      return -1, true;
    }
    local.Unpack(user);
    local.foundIndex := index;
    var status, within := d.OnEachCpuKick(local, false, evs);
    if !within {
      return status, false;
    }
    if status != 0 {
      return -1, true;
    }
    local.Repack(user);
    return 0, true;
  }

  /** `gic_return_results`. */
  method GicReturnResults(d: Driver, user: MsDataCpu, evs: seq<CpuEvent>) returns (result: int, inBounds: bool)
    requires |evs| == MS_MAX_CPUS == user.cpu.Length && !d.Pending()
    modifies d, user.cpu
    ensures inBounds <==> SlotInRange(d.cfg, true, user.code, user.partNumber, user.pcpu)
    ensures inBounds ==>
              user.cpu[..] == AfterRequest(d.cfg, true, user.code, user.partNumber, user.pcpu, old(user.cpu[..]), evs)
    ensures inBounds && result != 0 ==> user.cpu[..] == old(user.cpu[..])
  {
    var local := new Wrapper();
    local.Unpack(user);
    if user.partNumber == GICC_V2 {
      local.baseAddr := d.cfg.giccBase;
    } else if user.partNumber == GICD_V2 {
      local.baseAddr := d.cfg.gicdBase;
    } else if user.partNumber == GICH_V2 {
      local.baseAddr := d.cfg.gichBase;
    } else if user.partNumber == GICV_V2 {
      local.baseAddr := d.cfg.gicvBase;
    } else {
      return -1, true;
    }
    var status, within := d.OnEachCpuKick(local, true, evs);
    if !within {
      return status, false;
    }
    if status != 0 {
      return -1, true;
    }
    local.Repack(user);
    return 0, true;
  }

  /** Copies a whole record across the user boundary. */
  method CopyRecord(from: MsDataCpu, to: MsDataCpu)
    requires from.cpu.Length == to.cpu.Length == MS_MAX_CPUS && from != to && from.cpu != to.cpu
    modifies to, to.cpu
    ensures to.code == from.code && to.pcpu == from.pcpu && to.partNumber == from.partNumber
    ensures to.cpu[..] == from.cpu[..] == old(from.cpu[..])
  {
    var i := 0;
    while i < MS_MAX_CPUS
      invariant 0 <= i <= MS_MAX_CPUS && from.cpu[..] == old(from.cpu[..])
      invariant forall j :: 0 <= j < i ==> to.cpu[j] == from.cpu[j]
    {
      to.cpu[i] := from.cpu[i];
      i := i + 1;
    }
    to.code, to.pcpu, to.partNumber := from.code, from.pcpu, from.partNumber;
  }

  /** `call_cmd`: clears the trap flag, works on a copy, and copies back only on success. The
      caller's code, CPU and part are what they were. */
  method CallCmd(d: Driver, buffer: MsDataCpu, gic: bool, evs: seq<CpuEvent>) returns (result: int, inBounds: bool)
    requires |evs| == MS_MAX_CPUS == buffer.cpu.Length
    modifies d, buffer, buffer.cpu
    ensures buffer.code == old(buffer.code) && buffer.pcpu == old(buffer.pcpu)
    ensures buffer.partNumber == old(buffer.partNumber)
    ensures inBounds <==> SlotInRange(d.cfg, gic, buffer.code, buffer.partNumber, buffer.pcpu)
    ensures inBounds ==>
              buffer.cpu[..]
              == AfterRequest(d.cfg, gic, buffer.code, buffer.partNumber, buffer.pcpu, old(buffer.cpu[..]), evs)
  {
    d.undefFlag := 0;
    var local := new MsDataCpu();
    CopyRecord(buffer, local);
    if gic {
      result, inBounds := GicReturnResults(d, local, evs);
    } else {
      result, inBounds := CallFuncReturnResults(d, local, evs);
    }
    if !inBounds {
      return;
    }
    if result != 0 {
      return -1, true;
    }
    CopyRecord(local, buffer);
  }

  /** One request as the environment lets it happen. */
  datatype Step = Step(deviceOpen: bool, ioctlFails: bool, cpus: seq<CpuEvent>)

  predicate Delivered(s: Step) {
    s.deviceOpen && !s.ioctlFails
  }

  /** `driver_results`: resets every status, then calls the driver, whose own failure does not
      reach the caller. */
  method DriverResults(d: Driver, gic: bool, results: MsDataCpu, s: Step) returns (result: int, inBounds: bool)
    requires |s.cpus| == MS_MAX_CPUS == results.cpu.Length
    modifies d, results, results.cpu
    ensures results.code == old(results.code) && results.pcpu == old(results.pcpu)
    ensures results.partNumber == old(results.partNumber)
    ensures inBounds <==> (Delivered(s) ==> SlotInRange(d.cfg, gic, results.code, results.partNumber, results.pcpu))
    ensures inBounds ==>
              results.cpu[..] ==
              if !s.deviceOpen then old(results.cpu[..])
              else if s.ioctlFails then Reset(old(results.cpu[..]))
              else AfterRequest(d.cfg, gic, results.code, results.partNumber, results.pcpu, Reset(old(results.cpu[..])),
                                s.cpus)
    ensures inBounds ==> result == if Delivered(s) then 0 else -1
  {
    hide AfterRequest, SlotInRange;
    if !s.deviceOpen {
      return -1, true;
    }
    results.ResetStatus();
    if s.ioctlFails {
      return -1, true;
    }
    var ignored, within := CallCmd(d, results, gic, s.cpus);
    return 0, within;
  }

  // ----- a run of requests -----

  /** The environment has a step with an event for every CPU for each read. */
  ghost predicate Scripted(ioctls: seq<UsedIoctl>, script: seq<Step>) {
    |script| == |ioctls| && forall n :: 0 <= n < |script| ==> |script[n].cpus| == MS_MAX_CPUS
  }

  /** The read touches no memory behind the last slot. */
  ghost predicate StepInRange(cfg: Config, x: UsedIoctl, s: Step) {
    Delivered(s) ==> SlotInRange(cfg, IsGicPart(x.part), x.registerUid, x.part, x.cpu)
  }

  ghost predicate RunInRange(cfg: Config, ioctls: seq<UsedIoctl>, script: seq<Step>, n: nat)
    requires n <= |ioctls| && n <= |script|
  {
    forall k :: 0 <= k < n ==> StepInRange(cfg, ioctls[k], script[k])
  }

  ghost function StepSlots(cfg: Config, slots: seq<MsData>, x: UsedIoctl, s: Step): (r: seq<MsData>)
    requires |slots| == |s.cpus| == MS_MAX_CPUS
    ensures |r| == MS_MAX_CPUS
  {
    if !s.deviceOpen then slots
    else if s.ioctlFails then Reset(slots)
    else AfterRequest(cfg, IsGicPart(x.part), x.registerUid, x.part, x.cpu, Reset(slots), s.cpus)
  }

  /** The reused record after the first `n` reads. */
  ghost function SlotsAfter(cfg: Config, ioctls: seq<UsedIoctl>, script: seq<Step>, n: nat): (r: seq<MsData>)
    requires Scripted(ioctls, script) && n <= |ioctls|
    ensures |r| == MS_MAX_CPUS
  {
    if n == 0 then seq(MS_MAX_CPUS, i => ZERO_DATA)
    else StepSlots(cfg, SlotsAfter(cfg, ioctls, script, n - 1), ioctls[n - 1], script[n - 1])
  }

  function SlotResult(x: UsedIoctl, d: MsData): IoctlResult {
    IoctlResult(x.registerUid, d.out64, d.out1, d.out2, d.cpu, d.midr, NS_PRIVILEGE_LEVEL_1, d.status)
  }

  ghost function SlotResults(x: UsedIoctl, slots: seq<MsData>): (r: seq<IoctlResult>)
    ensures |r| == |slots|
    ensures forall i :: 0 <= i < |slots| ==> r[i] == SlotResult(x, slots[i])
  {
    seq(|slots|, i requires 0 <= i < |slots| => SlotResult(x, slots[i]))
  }

  /** The results after the first `n` reads: one for every slot of every delivered read. */
  ghost function ResultsAfter(cfg: Config, ioctls: seq<UsedIoctl>, script: seq<Step>, n: nat): seq<IoctlResult>
    requires Scripted(ioctls, script) && n <= |ioctls|
  {
    if n == 0 then []
    else if Delivered(script[n - 1]) then
      ResultsAfter(cfg, ioctls, script, n - 1) + SlotResults(ioctls[n - 1], SlotsAfter(cfg, ioctls, script, n))
    else ResultsAfter(cfg, ioctls, script, n - 1)
  }

  /** The loop that saves the slots of one read. */
  method SaveResults(x: UsedIoctl, record: MsDataCpu, out: ListHead<IoctlResult>)
    requires record.cpu.Length == MS_MAX_CPUS && out.Valid()
    modifies out, out.Nodes()
    ensures out.Valid() && fresh(out.Nodes() - old(out.Nodes()))
    ensures out.contents == old(out.contents) + SlotResults(x, record.cpu[..])
  {
    ghost var all := SlotResults(x, record.cpu[..]);
    var i := 0;
    while i < MS_MAX_CPUS
      invariant 0 <= i <= MS_MAX_CPUS && SlotResults(x, record.cpu[..]) == all
      invariant out.Valid() && fresh(out.Nodes() - old(out.Nodes()))
      invariant out.contents == old(out.contents) + all[..i]
    {
      var d := record.cpu[i];
      out.Append(IoctlResult(x.registerUid, d.out64, d.out1, d.out2, d.cpu, d.midr, NS_PRIVILEGE_LEVEL_1, d.status));
      i := i + 1;
    }
    assert all[..i] == all;
  }

  /** The body of the loop of `breakout_call_driver`. */
  method CallOne(d: Driver, x: UsedIoctl, record: MsDataCpu, s: Step, out: ListHead<IoctlResult>)
    returns (inBounds: bool)
    requires record.cpu.Length == |s.cpus| == MS_MAX_CPUS && out.Valid()
    modifies d, record, record.cpu, out, out.Nodes()
    ensures inBounds <==> StepInRange(d.cfg, x, s)
    ensures out.Valid() && fresh(out.Nodes() - old(out.Nodes()))
    ensures inBounds ==> record.cpu[..] == StepSlots(d.cfg, old(record.cpu[..]), x, s)
    ensures inBounds ==>
              out.contents == old(out.contents) + if Delivered(s) then SlotResults(x, record.cpu[..]) else []
  {
    hide AfterRequest, SlotInRange;
    record.code := x.registerUid;
    record.pcpu := x.cpu;
    record.partNumber := x.part;
    var result;
    if x.part == GICC_V2 || x.part == GICD_V2 || x.part == GICH_V2 || x.part == GICV_V2 {
      result, inBounds := DriverResults(d, true, record, s);
    } else {
      result, inBounds := DriverResults(d, false, record, s);
    }
    if inBounds && result == 0 {
      SaveResults(x, record, out);
    }
  }

  /** `breakout_call_driver`: one record, zeroed once, serves all reads. Nothing is promised once memory
      behind a record's last slot has been written. */
  method BreakoutCallDriver(d: Driver, ioctls: ListHead<UsedIoctl>, script: seq<Step>, out: ListHead<IoctlResult>)
    returns (inBounds: bool)
    requires ioctls.Valid() && out.Valid() && Scripted(ioctls.contents, script)
    modifies d, out, out.Nodes()
    ensures inBounds <==> RunInRange(d.cfg, ioctls.contents, script, |ioctls.contents|)
    ensures out.Valid() && fresh(out.Nodes() - old(out.Nodes()))
    ensures inBounds ==>
              out.contents == old(out.contents) + ResultsAfter(d.cfg, ioctls.contents, script, |ioctls.contents|)
  {
    hide StepSlots, StepInRange, ListHead.Valid;
    ioctls.WalkStart();
    ghost var todo := ioctls.contents;
    var local := new MsDataCpu();
    var temp := ioctls.head;
    var n := 0;
    while temp != null
      invariant 0 <= n <= |todo| && ioctls.Valid() && ioctls.contents == todo && temp == ioctls.NodeAt(n)
      invariant RunInRange(d.cfg, todo, script, n)
      invariant local.cpu.Length == MS_MAX_CPUS && local.cpu[..] == SlotsAfter(d.cfg, todo, script, n)
      invariant out.Valid() && fresh(out.Nodes() - old(out.Nodes()))
      invariant out.contents == old(out.contents) + ResultsAfter(d.cfg, todo, script, n)
      decreases |todo| - n
    {
      ioctls.WalkStep(n);
      var within := CallOne(d, temp.data, local, script[n], out);
      if !within {
        return false;
      }
      temp := temp.next;
      n := n + 1;
    }
    return true;
  }
}
