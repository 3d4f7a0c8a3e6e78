/** Which device rows a query shows: the join admits them by the MIDR of their result, and that is the
    MIDR of the last coprocessor read that ran on the same CPU before. */
module DeviceQuery {
  import opened Bits
  import opened Parse
  import opened Decode
  import opened Tables
  import opened Lookup
  import opened Routing
  import opened Join
  import opened JoinSpec
  import opened FuncTable
  import opened KernelEngine
  import opened KernelRun
  import opened KernelSafety
  import opened UserEngine
  import opened Query
  import opened ShownRows

  // ----- the values that a query shows of a device row -----

  /** A delivered read of the row's register succeeds on slot `i`, decodes to `w`, and finds no MIDR of an
      earlier coprocessor read there. */
  ghost predicate ReadingWithoutMidr(cfg: Config, ioctls: seq<UsedIoctl>, script: seq<Step>, row: HeapRow, i: nat,
      w: nat)
    requires Scripted(ioctls, script) && i < MS_MAX_CPUS
  {
    exists n :: 0 <= n < |ioctls| && Reading(cfg, ioctls, script, row, n, i, w)
                && LastMidr(cfg, ioctls, script, n + 1, i) == 0
  }

  /** For a device row no MIDR but 0 opens the gate. */
  lemma {:induction false} DeviceReadings(cfg: Config, ioctls: seq<UsedIoctl>, script: seq<Step>, row: HeapRow,
      i: nat, w: nat)
    requires Scripted(ioctls, script) && i < MS_MAX_CPUS && MscodePart(row.uid) >= 8
    ensures SomeAdmittedReading(cfg, ioctls, script, row, i, w) <==> ReadingWithoutMidr(cfg, ioctls, script, row, i, w)
  {
    hide Gate, Reading, LastMidr, MscodePart;
    forall n | 0 <= n < |ioctls|
      ensures AdmittedReading(cfg, ioctls, script, row, n, i, w)
         <==> Reading(cfg, ioctls, script, row, n, i, w) && LastMidr(cfg, ioctls, script, n + 1, i) == 0
    {
      DeviceGate(LastMidr(cfg, ioctls, script, n + 1, i), MscodePart(row.uid));
    }
  }

  /** A live parsed query shows a matched device row with value `w`, as a kernel success on CPU `i`,
      exactly when a delivered read of its register succeeded on that CPU, decodes to `w`, and found no
      MIDR there of an earlier coprocessor read of the same query; and as a user-mode success exactly
      when a user-mode read of its register succeeded and decodes to `w`. */
  lemma {:induction false} DeviceRowShown(rows: seq<HeapRow>, cfg: Config, info: MatchInfo, env: Environment,
      before: seq<Populated>, c: nat, i: nat, w: nat)
    requires ShiftsInWord(rows) && UidsDistinct(rows) && Covers(env, Matches(rows, info, |rows|))
    requires info.supplied == 0 && info.noparse != 1 && Found(rows, cfg, info, env, before).Finished?
    requires c < |rows| && Matched(rows, info, c) && MscodePart(rows[c].uid) >= 8 && i < MS_MAX_CPUS
    ensures |Found(rows, cfg, info, env, before).shown| >= |before|
    ensures var added := Found(rows, cfg, info, env, before).shown[|before|..];
            ShowsValue(added, rows[c].uid, NS_PRIVILEGE_LEVEL_1, i, w)
            <==> ReadingWithoutMidr(cfg, KernelTodo(Matches(rows, info, |rows|)), env.kernel, rows[c], i, w)
    ensures var added := Found(rows, cfg, info, env, before).shown[|before|..];
            ShowsValue(added, rows[c].uid, NS_PRIVILEGE_LEVEL_0, 0, w)
            <==> SomeUserReading(cfg, UserTodo(Matches(rows, info, |rows|)), env.user, rows[c], w)
  {
    hide Matches, Matched, UidsDistinct, ShiftsInWord, Found, ShowsValue, KernelTodo, UserTodo, MscodePart;
    hide SomeAdmittedReading, SomeUserReading, ReadingWithoutMidr;
    ValuesShown(rows, cfg, info, env, before, c, i, w);
    DeviceReadings(cfg, KernelTodo(Matches(rows, info, |rows|)), env.kernel, rows[c], i, w);
  }

  ghost predicate SomeReading(cfg: Config, ioctls: seq<UsedIoctl>, script: seq<Step>, row: HeapRow, i: nat, w: nat)
    requires Scripted(ioctls, script) && i < MS_MAX_CPUS
  {
    exists n :: 0 <= n < |ioctls| && Reading(cfg, ioctls, script, row, n, i, w)
  }

  /** So a query that sends only device registers to the kernel shows every value that its delivered reads
      of a matched row's register return, and no other. */
  lemma {:induction false} DeviceQueryShown(rows: seq<HeapRow>, cfg: Config, info: MatchInfo, env: Environment,
      before: seq<Populated>, c: nat, i: nat, w: nat)
    requires ShiftsInWord(rows) && UidsDistinct(rows) && Covers(env, Matches(rows, info, |rows|))
    requires info.supplied == 0 && info.noparse != 1 && Found(rows, cfg, info, env, before).Finished?
    requires c < |rows| && Matched(rows, info, c) && MscodePart(rows[c].uid) >= 8 && i < MS_MAX_CPUS
    requires forall k :: 0 <= k < |KernelTodo(Matches(rows, info, |rows|))| ==>
               IsGicPart(KernelTodo(Matches(rows, info, |rows|))[k].part)
    ensures |Found(rows, cfg, info, env, before).shown| >= |before|
    ensures var added := Found(rows, cfg, info, env, before).shown[|before|..];
            ShowsValue(added, rows[c].uid, NS_PRIVILEGE_LEVEL_1, i, w)
            <==> SomeReading(cfg, KernelTodo(Matches(rows, info, |rows|)), env.kernel, rows[c], i, w)
  {
    hide Matches, Matched, UidsDistinct, ShiftsInWord, Found, ShowsValue, KernelTodo, UserTodo, MscodePart;
    hide Reading, LastMidr, SomeUserReading;
    DeviceRowShown(rows, cfg, info, env, before, c, i, w);
    var todo := KernelTodo(Matches(rows, info, |rows|));
    forall n | 0 <= n < |todo|
      ensures Reading(cfg, todo, env.kernel, rows[c], n, i, w) ==> LastMidr(cfg, todo, env.kernel, n + 1, i) == 0
    {
      DeviceOnlyRunsAdmitted(cfg, todo, env.kernel, n + 1, i);
    }
  }

  // ----- whether a query lists a device row at all -----

  /** Some row of the table row with the uid is listed, whatever its status. */
  ghost predicate Shows(shown: seq<Populated>, uid: u32) {
    exists k :: 0 <= k < |shown| && shown[k].uid == uid
  }

  /** The device row is listed exactly when some result of its register carries no MIDR. */
  lemma {:induction false} ListedFromResult(rows: seq<HeapRow>, results: seq<IoctlResult>, info: MatchInfo, c: nat)
    requires UidsDistinct(rows) && c < |rows| && Matched(rows, info, c) && MscodePart(rows[c].uid) >= 8
    ensures Shows(ForResults(rows, results, Matches(rows, info, |rows|), true, |results|), rows[c].uid)
       <==> NoMidrResult(results, rows[c].registerUid)
  {
    hide Matches, Matched, UidsDistinct, ForResults, Gate, MscodePart, RawValue, Pow2;
    var added := ForResults(rows, results, Matches(rows, info, |rows|), true, |results|);
    forall m | 0 <= m < |results|
      ensures Gate(results[m].midr, MscodePart(rows[c].uid)) <==> results[m].midr == 0
    {
      DeviceGate(results[m].midr, MscodePart(rows[c].uid));
    }
    if Shows(added, rows[c].uid) {
      var k :| 0 <= k < |added| && added[k].uid == rows[c].uid;
      MatchedRowShown(rows, results, info, true, c, added[k]);
    }
    if NoMidrResult(results, rows[c].registerUid) {
      var m :| 0 <= m < |results| && results[m].registerUid == rows[c].registerUid && results[m].midr == 0;
      assert RowAnswers(rows[c], results[m]);
      MatchedRowShown(rows, results, info, true, c, Decoded(rows, c, results[m]));
    }
  }

  /** A delivered read of the register finds, in some slot, no MIDR from a coprocessor read. */
  ghost predicate ReadWithoutMidr(cfg: Config, ioctls: seq<UsedIoctl>, script: seq<Step>, register: u32)
    requires Scripted(ioctls, script)
  {
    exists n, i :: 0 <= n < |ioctls| && 0 <= i < MS_MAX_CPUS && NoMidrAt(cfg, ioctls, script, register, n, i)
  }

  ghost predicate NoMidrAt(cfg: Config, ioctls: seq<UsedIoctl>, script: seq<Step>, register: u32, n: nat, i: nat)
    requires Scripted(ioctls, script) && n < |ioctls| && i < MS_MAX_CPUS
  {
    && Delivered(script[n]) && ioctls[n].registerUid == register
    && LastMidr(cfg, ioctls, script, n + 1, i) == 0
  }

  ghost predicate UserReaderFor(table: seq<FuncEntry>, ioctls: seq<UsedIoctl>, register: u32) {
    exists k :: 0 <= k < |ioctls| && ioctls[k].registerUid == register && HasReader(table, register)
  }

  ghost predicate NoMidrResult(results: seq<IoctlResult>, register: u32) {
    exists m :: 0 <= m < |results| && results[m].registerUid == register && results[m].midr == 0
  }

  lemma {:induction false} KernelResultsWithoutMidr(cfg: Config, ioctls: seq<UsedIoctl>, script: seq<Step>,
      register: u32)
    requires Scripted(ioctls, script)
    ensures NoMidrResult(ResultsAfter(cfg, ioctls, script, |ioctls|), register)
       <==> ReadWithoutMidr(cfg, ioctls, script, register)
  {
    hide ResultsAfter, SlotsAfter, LastMidr;
    var results, origins := ResultsAfter(cfg, ioctls, script, |ioctls|), Origins(script, |ioctls|);
    ResultOrigins(cfg, ioctls, script, |ioctls|);
    if NoMidrResult(results, register) {
      var m :| 0 <= m < |results| && results[m].registerUid == register && results[m].midr == 0;
      MidrInSlot(cfg, ioctls, script, origins[m].n + 1, origins[m].i);
      assert NoMidrAt(cfg, ioctls, script, register, origins[m].n, origins[m].i);
    }
    if ReadWithoutMidr(cfg, ioctls, script, register) {
      var n: nat, i: nat :| n < |ioctls| && i < MS_MAX_CPUS && NoMidrAt(cfg, ioctls, script, register, n, i);
      OriginsComplete(script, |ioctls|, Origin(n, i));
      var m :| 0 <= m < |origins| && origins[m] == Origin(n, i);
      MidrInSlot(cfg, ioctls, script, n + 1, i);
      assert results[m].registerUid == register && results[m].midr == 0;
    }
  }

  lemma {:induction false} UserResultsWithoutMidr(table: seq<FuncEntry>, aarch64: bool, ioctls: seq<UsedIoctl>,
      script: seq<UserEvent>, n: nat, register: u32)
    requires n <= |ioctls| == |script|
    ensures NoMidrResult(UserResults(table, aarch64, ioctls, script, n), register)
       <==> exists k :: 0 <= k < n && ioctls[k].registerUid == register && HasReader(table, register)
  {
    hide HasReader, EntryFor, Stored64, Stored1, Stored2;
    if n > 0 {
      UserResultsWithoutMidr(table, aarch64, ioctls, script, n - 1, register);
      var before := UserResults(table, aarch64, ioctls, script, n - 1);
      var all := UserResults(table, aarch64, ioctls, script, n);
      if HasReader(table, ioctls[n - 1].registerUid) {
        NoMidrExtended(before, all[|before|], register);
      }
    }
  }

  lemma NoMidrExtended(results: seq<IoctlResult>, r: IoctlResult, register: u32)
    ensures NoMidrResult(results + [r], register)
       <==> NoMidrResult(results, register) || (r.registerUid == register && r.midr == 0)
  {
    if NoMidrResult(results, register) {
      var m :| 0 <= m < |results| && results[m].registerUid == register && results[m].midr == 0;
      assert (results + [r])[m].registerUid == register;
    }
    assert (results + [r])[|results|] == r;
  }

  lemma NoMidrConcat(a: seq<IoctlResult>, b: seq<IoctlResult>, register: u32)
    ensures NoMidrResult(a + b, register) <==> NoMidrResult(a, register) || NoMidrResult(b, register)
  {
    if NoMidrResult(a, register) {
      var m :| 0 <= m < |a| && a[m].registerUid == register && a[m].midr == 0;
      assert (a + b)[m].registerUid == register;
    }
    if NoMidrResult(b, register) {
      var m :| 0 <= m < |b| && b[m].registerUid == register && b[m].midr == 0;
      assert (a + b)[|a| + m].registerUid == register;
    }
  }

  /** A live parsed query lists a matched device row, with any status, exactly when a delivered read of
      its register finds, in some slot, no MIDR of an earlier coprocessor read of the same query (be it
      the slot of a CPU that nobody asked), or the register has a user-mode reader. */
  lemma {:induction false} DeviceRowListed(rows: seq<HeapRow>, cfg: Config, info: MatchInfo, env: Environment,
      before: seq<Populated>, c: nat)
    requires ShiftsInWord(rows) && UidsDistinct(rows) && Covers(env, Matches(rows, info, |rows|))
    requires info.supplied == 0 && info.noparse != 1 && Found(rows, cfg, info, env, before).Finished?
    requires c < |rows| && Matched(rows, info, c) && MscodePart(rows[c].uid) >= 8
    ensures |Found(rows, cfg, info, env, before).shown| >= |before|
    ensures var reqs := Matches(rows, info, |rows|);
            Shows(Found(rows, cfg, info, env, before).shown[|before|..], rows[c].uid)
            <==> ReadWithoutMidr(cfg, KernelTodo(reqs), env.kernel, rows[c].registerUid)
                 || UserReaderFor(cfg.funcTable, UserTodo(reqs), rows[c].registerUid)
  {
    hide Matches, Matched, MscodePart, UidsDistinct, ShiftsInWord, Found, ForResults, Shows;
    hide ResultsAfter, UserResults, KernelTodo, UserTodo, ReadWithoutMidr, QueryInRange;
    var reqs := Matches(rows, info, |rows|);
    var kernel := ResultsAfter(cfg, KernelTodo(reqs), env.kernel, |KernelTodo(reqs)|);
    var user := UserResults(cfg.funcTable, cfg.aarch64, UserTodo(reqs), env.user, |UserTodo(reqs)|);
    var results, register := RawResults(cfg, reqs, env), rows[c].registerUid;
    var added := ForResults(rows, results, reqs, true, |results|);
    LiveQueryExact(rows, cfg, info, env, before);
    assert Found(rows, cfg, info, env, before).shown[|before|..] == added;
    ListedFromResult(rows, results, info, c);
    NoMidrConcat(kernel, user, register);
    KernelResultsWithoutMidr(cfg, KernelTodo(reqs), env.kernel, register);
    UserResultsWithoutMidr(cfg.funcTable, cfg.aarch64, UserTodo(reqs), env.user, |UserTodo(reqs)|, register);
  }

  // ----- a query that mixes coprocessor and device registers -----

  /** Two tables with one row each, a coprocessor register and a device register. */
  ghost function MixedTables(co: BitfieldInfo, gic: BitfieldInfo): seq<Table> {
    [Table(TypeArch, ARCH_ARMV7A, [co]), Table(TypeMm, GICD_V2, [gic])]
  }

  ghost predicate MixedRows(co: BitfieldInfo, gic: BitfieldInfo, rows: seq<HeapRow>) {
    && |rows| == 2 && UidsDistinct(rows) && ShiftsInWord(rows)
    && rows[0].tableType == TypeArch && rows[1].tableType == TypeMm
    && rows[0].functionalGroup == co.functionalGroup && rows[1].functionalGroup == gic.functionalGroup
    && rows[0].registerUid == co.registerUid && rows[1].registerUid != co.registerUid
    && MscodePart(rows[0].uid) == ARCH_ARMV7A && MscodePart(rows[1].uid) == GICD_V2
  }

  ghost predicate MixedInfos(co: BitfieldInfo, gic: BitfieldInfo) {
    && co.registerUid < 0x800 && co.uid < 0x1_0000 && co.rightshift < 64
    && gic.registerUid < 0x800 && gic.uid < 0x1_0000 && gic.rightshift < 64 && gic.range == 1
  }

  lemma MixedExpansion(co: BitfieldInfo, gic: BitfieldInfo)
    requires MixedInfos(co, gic)
    ensures MixedRows(co, gic, Expansion(MixedTables(co, gic), 1))
  {
    hide Mscode, MscodePart, CreateUid, Decimal;
    var tables := MixedTables(co, gic);
    var t0, t1 := tables[0], tables[1];
    assert RowSites(t0, 1, 0, 1) == [] && CopySites(t0, 1, 0, 0, 0) == [Site(0, 0, 0)];
    assert RowSites(t1, 1, 1, 1) == [] && CopySites(t1, 1, 1, 0, 0) == [Site(1, 0, 0)];
    assert Sites(tables, 1, 2) == [];
    assert Sites(tables, 1, 1) == [Site(1, 0, 0)];
    assert Sites(tables, 1, 0) == [Site(0, 0, 0), Site(1, 0, 0)];
    CodeRoundTrip(ARCH_ARMV7A, co.registerUid, co.uid);
    CodeRoundTrip(GICD_V2, gic.registerUid, gic.uid);
    DeviceRegisterCode(t1, gic, 0, 1);
  }

  /** The request is for kernel mode only. */
  lemma KernelOnly(q: Request)
    requires q.pl == NS_PRIVILEGE_LEVEL_1
    ensures ToKernel(q) && !ToUser(q)
  {
    hide And, ToKernel, ToUser;
    LevelsAreBits(q);
    assert Shr(2, 1) == 1 && Shr(2, 2) == 0;
    LowOfZero(3);
    ShrAdd(2, 2, 3);
  }

  /** Both rows match, and both registers are read by the kernel, the coprocessor register first. */
  lemma MixedReads(co: BitfieldInfo, gic: BitfieldInfo, rows: seq<HeapRow>, info: MatchInfo)
    requires MixedRows(co, gic, rows) && info.pl == NS_PRIVILEGE_LEVEL_1 && info.architecture == ARCH_ARMV7A
    requires co.functionalGroup == gic.functionalGroup == info.functionalGroup
    ensures Matches(rows, info, 2) == [RequestFor(rows[0], info), RequestFor(rows[1], info)]
    ensures KernelTodo(Matches(rows, info, 2))
         == [UsedIoctl(co.registerUid, info.cpu, ARCH_ARMV7A), UsedIoctl(rows[1].registerUid, info.cpu, GICD_V2)]
    ensures UserTodo(Matches(rows, info, 2)) == []
  {
    hide MscodePart, ToKernel, ToUser, UidsDistinct, ShiftsInWord;
    var q0, q1 := RequestFor(rows[0], info), RequestFor(rows[1], info);
    assert Matches(rows, info, 0) == [];
    assert Matches(rows, info, 1) == [q0];
    var reqs := Matches(rows, info, 2);
    assert reqs == [q0, q1];
    KernelOnly(q0);
    KernelOnly(q1);
    assert FirstRoutable(reqs, 0) && FirstRoutable(reqs, 1);
    assert Kept(reqs, 0) == [];
    assert Kept(reqs, 1) == [q0];
    assert Kept(reqs, 2) == [q0, q1];
    assert [q0, q1][..1] == [q0] && [q0][..0] == [];
    assert KernelReads([]) == [] && UserReads([]) == [];
    assert KernelReads([q0]) == [IoctlFor(q0)] && UserReads([q0]) == [];
    assert KernelReads([q0, q1]) == [IoctlFor(q0), IoctlFor(q1)] && UserReads([q0, q1]) == [];
  }

  /** What the failing query runs against: every read is delivered and every CPU behaves like `ev`. */
  ghost function MixedEnv(ev: CpuEvent): Environment {
    Environment(seq(2, _ => Step(true, false, seq(MS_MAX_CPUS, _ => ev))), [])
  }

  /** A query for a group that spans both tables, by CPUs that all run the reads and have a MIDR. */
  ghost predicate MixedQuery(co: BitfieldInfo, gic: BitfieldInfo, cfg: Config, info: MatchInfo, ev: CpuEvent) {
    && MixedInfos(co, gic) && co.functionalGroup == gic.functionalGroup == info.functionalGroup
    && info.pl == NS_PRIVILEGE_LEVEL_1 && info.architecture == ARCH_ARMV7A && info.cpu != MS_MAX_CPUS
    && info.supplied == 0 && info.noparse != 1
    && cfg.smp && HasReader(cfg.funcTable, co.registerUid) && Runs(cfg, ev) && ev.midr != 0
  }

  lemma {:induction false} MixedSetup(co: BitfieldInfo, gic: BitfieldInfo, cfg: Config, info: MatchInfo, ev: CpuEvent)
    requires MixedQuery(co, gic, cfg, info, ev)
    ensures var rows := Expansion(MixedTables(co, gic), 1);
            && MixedRows(co, gic, rows) && Matched(rows, info, 1)
            && KernelTodo(Matches(rows, info, 2))
               == [UsedIoctl(co.registerUid, info.cpu, ARCH_ARMV7A), UsedIoctl(rows[1].registerUid, info.cpu, GICD_V2)]
            && UserTodo(Matches(rows, info, 2)) == []
            && Covers(MixedEnv(ev), Matches(rows, info, 2))
            && Found(rows, cfg, info, MixedEnv(ev), []).Finished?
  {
    hide Expansion, MixedInfos, Matches, KernelTodo, UserTodo, UidsDistinct, ShiftsInWord, MscodePart, Found;
    hide Runs, HasReader, Named, Admitted;
    var rows := Expansion(MixedTables(co, gic), 1);
    MixedExpansion(co, gic);
    MixedReads(co, gic, rows, info);
    assert Scripted(KernelTodo(Matches(rows, info, 2)), MixedEnv(ev).kernel);
    MixedIsDefined(rows, cfg, info, MixedEnv(ev));
    assert Named(rows[1], info) && Admitted(rows[1], info) by { MixedMatches(rows[1], info); }
  }

  /** The failing input: a group that spans a coprocessor and a device table. Whichever CPU is asked, the
      device register is read there with success, and yet none of the rows of that success is shown,
      with any value. */
  lemma {:induction false} MixedQueryLosesDeviceValue(co: BitfieldInfo, gic: BitfieldInfo, cfg: Config,
      info: MatchInfo, ev: CpuEvent, i: nat, w: nat)
    requires MixedQuery(co, gic, cfg, info, ev) && i < MS_MAX_CPUS && Asked(info.cpu, i) && cfg.gicdBase != 0
    ensures var rows := Expansion(MixedTables(co, gic), 1);
            && MixedRows(co, gic, rows) && Covers(MixedEnv(ev), Matches(rows, info, 2))
            && SucceedsAt(cfg, UsedIoctl(rows[1].registerUid, info.cpu, GICD_V2), MixedEnv(ev).kernel[1].cpus, i)
            && Found(rows, cfg, info, MixedEnv(ev), []).Finished?
            && !ShowsValue(Found(rows, cfg, info, MixedEnv(ev), []).shown, rows[1].uid, NS_PRIVILEGE_LEVEL_1, i, w)
            && !ShowsValue(Found(rows, cfg, info, MixedEnv(ev), []).shown, rows[1].uid, NS_PRIVILEGE_LEVEL_0, 0, w)
  {
    hide Expansion, MixedInfos, Matches, KernelTodo, UserTodo, UidsDistinct, ShiftsInWord, MscodePart, Found;
    hide Runs, HasReader, LastMidr, Matched, ShowsValue;
    var rows := Expansion(MixedTables(co, gic), 1);
    MixedSetup(co, gic, cfg, info, ev);
    var todo := KernelTodo(Matches(rows, info, 2));
    MixedMidr(cfg, todo, ev, i);
    DeviceReadSucceeds(cfg, todo[1], ev, i);
    DeviceRowShown(rows, cfg, info, MixedEnv(ev), [], 1, i, w);
    OnlyDeviceRead(cfg, todo, MixedEnv(ev).kernel, rows[1], i, w);
    assert Found(rows, cfg, info, MixedEnv(ev), []).shown[0..] == Found(rows, cfg, info, MixedEnv(ev), []).shown;
  }

  lemma DeviceReadSucceeds(cfg: Config, x: UsedIoctl, ev: CpuEvent, i: nat)
    requires cfg.smp && Runs(cfg, ev) && i < MS_MAX_CPUS && Asked(x.cpu, i) && x.part == GICD_V2 && cfg.gicdBase != 0
    ensures SucceedsAt(cfg, x, seq(MS_MAX_CPUS, _ => ev), i)
  {
    hide Runs, MscodeField, PendingAt;
  }

  /** The only read of the device register finds a MIDR. */
  lemma OnlyDeviceRead(cfg: Config, todo: seq<UsedIoctl>, script: seq<Step>, row: HeapRow, i: nat, w: nat)
    requires Scripted(todo, script) && |todo| == 2 && i < MS_MAX_CPUS
    requires todo[0].registerUid != row.registerUid && LastMidr(cfg, todo, script, 2, i) != 0
    ensures !ReadingWithoutMidr(cfg, todo, script, row, i, w)
  {
    hide LastMidr, SucceedsAt, FieldBits, JoinedValue, LastRun, ReaderOfRead;
  }

  /** When all CPUs are asked the device row is not even listed. */
  lemma {:induction false} MixedQueryLosesDeviceRow(co: BitfieldInfo, gic: BitfieldInfo, cfg: Config, info: MatchInfo,
      ev: CpuEvent)
    requires MixedQuery(co, gic, cfg, info, ev) && info.cpu == MS_CPU_ALL
    ensures var rows := Expansion(MixedTables(co, gic), 1);
            && MixedRows(co, gic, rows) && Covers(MixedEnv(ev), Matches(rows, info, 2))
            && Found(rows, cfg, info, MixedEnv(ev), []).Finished?
            && !Shows(Found(rows, cfg, info, MixedEnv(ev), []).shown, rows[1].uid)
  {
    hide Expansion, MixedInfos, Matches, KernelTodo, UserTodo, UidsDistinct, ShiftsInWord, MscodePart, Found, Shows;
    hide Runs, HasReader, LastMidr, Matched;
    var rows := Expansion(MixedTables(co, gic), 1);
    MixedSetup(co, gic, cfg, info, ev);
    var todo := KernelTodo(Matches(rows, info, 2));
    DeviceRowListed(rows, cfg, info, MixedEnv(ev), [], 1);
    forall n: nat, i: nat | n < 2 && i < MS_MAX_CPUS
      ensures !NoMidrAt(cfg, todo, MixedEnv(ev).kernel, rows[1].registerUid, n, i)
    {
      MixedMidr(cfg, todo, ev, i);
    }
    assert Found(rows, cfg, info, MixedEnv(ev), []).shown[0..] == Found(rows, cfg, info, MixedEnv(ev), []).shown;
  }

  /** When one CPU is asked the device row is listed, but with nothing except the "no result" of the CPUs
      that nobody asked. */
  lemma {:induction false} MixedQueryListsOthers(co: BitfieldInfo, gic: BitfieldInfo, cfg: Config, info: MatchInfo,
      ev: CpuEvent)
    requires MixedQuery(co, gic, cfg, info, ev) && info.cpu < MS_MAX_CPUS
    ensures var rows := Expansion(MixedTables(co, gic), 1);
            && MixedRows(co, gic, rows) && Covers(MixedEnv(ev), Matches(rows, info, 2))
            && Found(rows, cfg, info, MixedEnv(ev), []).Finished?
            && Shows(Found(rows, cfg, info, MixedEnv(ev), []).shown, rows[1].uid)
            && forall k :: 0 <= k < |Found(rows, cfg, info, MixedEnv(ev), []).shown|
                           && Found(rows, cfg, info, MixedEnv(ev), []).shown[k].uid == rows[1].uid ==>
                 Found(rows, cfg, info, MixedEnv(ev), []).shown[k].status == NoResult
  {
    hide Expansion, MixedInfos, Matches, KernelTodo, UserTodo, UidsDistinct, ShiftsInWord, MscodePart, Found, Shows;
    hide Runs, HasReader, LastMidr, Matched, RawResults, ForResults, QueryInRange, ResultsAfter, Gate, Pow2, RawValue;
    var rows := Expansion(MixedTables(co, gic), 1);
    MixedSetup(co, gic, cfg, info, ev);
    var reqs := Matches(rows, info, 2);
    var todo, script := KernelTodo(reqs), MixedEnv(ev).kernel;
    var other: nat := if info.cpu == 0 then 1 else 0;
    UnaskedMidr(cfg, todo, script, other);
    assert NoMidrAt(cfg, todo, script, rows[1].registerUid, 1, other);
    DeviceRowListed(rows, cfg, info, MixedEnv(ev), [], 1);
    var shown := Found(rows, cfg, info, MixedEnv(ev), []).shown;
    assert shown[0..] == shown;
    LiveQueryExact(rows, cfg, info, MixedEnv(ev), []);
    var results := RawResults(cfg, reqs, MixedEnv(ev));
    assert shown == ForResults(rows, results, reqs, true, |results|);
    assert results == ResultsAfter(cfg, todo, script, 2) by { NoUserPart(cfg, reqs, MixedEnv(ev)); }
    forall k | 0 <= k < |shown| && shown[k].uid == rows[1].uid
      ensures shown[k].status == NoResult
    {
      MatchedRowShown(rows, results, info, true, 1, shown[k]);
      var m :| 0 <= m < |results| && RowAnswers(rows[1], results[m]) && shown[k] == Decoded(rows, 1, results[m]);
      DeviceGate(results[m].midr, MscodePart(rows[1].uid));
      UnaskedResult(cfg, todo, ev, m);
    }
  }

  lemma NoUserPart(cfg: Config, reqs: seq<Request>, env: Environment)
    requires Covers(env, reqs) && UserTodo(reqs) == []
    ensures RawResults(cfg, reqs, env) == ResultsAfter(cfg, KernelTodo(reqs), env.kernel, |KernelTodo(reqs)|)
  {}

  /** A CPU that is not asked runs nothing and has no MIDR. */
  lemma UnaskedMidr(cfg: Config, todo: seq<UsedIoctl>, script: seq<Step>, i: nat)
    requires cfg.smp && Scripted(todo, script) && |todo| == 2 && i < MS_MAX_CPUS
    requires !Asked(todo[0].cpu, i) && !Asked(todo[1].cpu, i)
    ensures LastMidr(cfg, todo, script, 2, i) == 0
  {
    hide ReaderOfRead;
    assert LastMidr(cfg, todo, script, 1, i) == 0;
  }

  /** A result of the device read without a MIDR is that of a CPU that is not asked. */
  lemma UnaskedResult(cfg: Config, todo: seq<UsedIoctl>, ev: CpuEvent, m: nat)
    requires cfg.smp && Runs(cfg, ev) && |todo| == 2 && ev.midr != 0
    requires todo[0].cpu == todo[1].cpu && todo[0].registerUid != todo[1].registerUid
    requires !IsGicPart(todo[0].part) && IsGicPart(todo[1].part) && HasReader(cfg.funcTable, todo[0].registerUid)
    requires m < |ResultsAfter(cfg, todo, MixedEnv(ev).kernel, 2)|
    requires ResultsAfter(cfg, todo, MixedEnv(ev).kernel, 2)[m].registerUid == todo[1].registerUid
    requires ResultsAfter(cfg, todo, MixedEnv(ev).kernel, 2)[m].midr == 0
    ensures ResultsAfter(cfg, todo, MixedEnv(ev).kernel, 2)[m].status == NoResult
  {
    hide Runs, HasReader, LastMidr, ResultsAfter, SlotsAfter, ReaderOfRead, Succeeds, PendingAt, RawValue, JoinedValue;
    var script := MixedEnv(ev).kernel;
    ResultOrigins(cfg, todo, script, 2);
    var o := Origins(script, 2)[m];
    EveryResultFaithful(cfg, todo, script, m);
    MidrInSlot(cfg, todo, script, o.n + 1, o.i);
    if Asked(todo[0].cpu, o.i) {
      MixedMidr(cfg, todo, ev, o.i);
    }
  }

  lemma MixedMatches(row: HeapRow, info: MatchInfo)
    requires row.tableType == TypeMm && row.functionalGroup == info.functionalGroup
    ensures Named(row, info) && Admitted(row, info)
  {}

  lemma MixedIsDefined(rows: seq<HeapRow>, cfg: Config, info: MatchInfo, env: Environment)
    requires ShiftsInWord(rows) && Covers(env, Matches(rows, info, |rows|)) && info.supplied == 0
    requires |KernelTodo(Matches(rows, info, |rows|))| > 0 && Delivered(env.kernel[0]) && info.cpu != MS_MAX_CPUS
    ensures Found(rows, cfg, info, env, []).Finished?
  {
    hide Matches, KernelTodo, UserTodo, ShiftsInWord, Found, SomeUserReader;
    UndefinedExactly(rows, cfg, info, env, []);
  }

  /** The device read finds the MIDR of the coprocessor read before it, on every CPU that is asked. */
  lemma MixedMidr(cfg: Config, todo: seq<UsedIoctl>, ev: CpuEvent, i: nat)
    requires cfg.smp && Runs(cfg, ev) && i < MS_MAX_CPUS && |todo| == 2 && Asked(todo[0].cpu, i)
    requires !IsGicPart(todo[0].part) && IsGicPart(todo[1].part)
    requires HasReader(cfg.funcTable, todo[0].registerUid)
    ensures LastMidr(cfg, todo, MixedEnv(ev).kernel, 2, i) == ev.midr
  {
    hide Runs, HasReader, EntryFor, MscodeField;
    assert LastMidr(cfg, todo, MixedEnv(ev).kernel, 1, i) == ev.midr;
  }
}
