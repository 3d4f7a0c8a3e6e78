/** A whole query: search, route, read, decode, join; or decode a supplied value instead. */
module Query {
  import opened Bits
  import opened Parse
  import opened Support
  import opened Decode
  import opened Tables
  import opened Lookup
  import opened Routing
  import opened Join
  import opened JoinSpec
  import opened FuncTable
  import opened KernelEngine
  import opened KernelRun
  import opened KernelSafety
  import opened UserEngine

  // ----- breakout_sort_ioctls -----

  /** The environment of a query: a step for every kernel read and an event for every user read. */
  datatype Environment = Environment(kernel: seq<Step>, user: seq<UserEvent>)

  ghost function KernelTodo(reqs: seq<Request>): seq<UsedIoctl> {
    KernelReads(Kept(reqs, |reqs|))
  }

  ghost function UserTodo(reqs: seq<Request>): seq<UsedIoctl> {
    UserReads(Kept(reqs, |reqs|))
  }

  ghost predicate Covers(env: Environment, reqs: seq<Request>) {
    Scripted(KernelTodo(reqs), env.kernel) && |env.user| == |UserTodo(reqs)|
  }

  /** The raw results of a query: first the kernel's, then user mode's. */
  ghost function RawResults(cfg: Config, reqs: seq<Request>, env: Environment): seq<IoctlResult>
    requires Covers(env, reqs)
  {
    ResultsAfter(cfg, KernelTodo(reqs), env.kernel, |KernelTodo(reqs)|)
    + UserResults(cfg.funcTable, cfg.aarch64, UserTodo(reqs), env.user, |UserTodo(reqs)|)
  }

  /** No kernel read of the query touches memory behind the last slot. */
  ghost predicate QueryInRange(cfg: Config, reqs: seq<Request>, env: Environment)
    requires Covers(env, reqs)
  {
    RunInRange(cfg, KernelTodo(reqs), env.kernel, |KernelTodo(reqs)|)
  }

  /** `breakout_sort_ioctls`: route, then read. */
  method SortIoctls(d: Driver, u: UserSide, internal: ListHead<Request>, env: Environment, out: ListHead<IoctlResult>)
      returns (inBounds: bool)
    requires internal.Valid() && out.Valid() && u.illsig == 0
    requires u.table == d.cfg.funcTable && u.aarch64 == d.cfg.aarch64
    requires Covers(env, internal.contents)
    modifies d, u, out, out.Nodes()
    ensures inBounds <==> QueryInRange(d.cfg, internal.contents, env)
    ensures u.illsig == 0
    ensures out.Valid() && fresh(out.Nodes() - old(out.Nodes()))
    ensures inBounds ==> out.contents == old(out.contents) + RawResults(d.cfg, internal.contents, env)
  {
    hide ResultsAfter, UserResults, KernelReads, UserReads, Kept, RunInRange, ListHead.Valid;
    var toDriver, toUsermode := RouteRequests(internal);
    inBounds := ReadBoth(d, u, toDriver, toUsermode, env, out);
    ReleaseReads(toDriver, toUsermode);
  }

  /** Releases the two lists of reads. */
  method ReleaseReads(toDriver: ListHead<UsedIoctl>, toUsermode: ListHead<UsedIoctl>)
    requires toDriver.Valid() && toUsermode.Valid()
    requires toDriver != toUsermode && toDriver.Nodes() !! toUsermode.Nodes()
    modifies toDriver, toDriver.Nodes(), toUsermode, toUsermode.Nodes()
    ensures toDriver.Valid() && toUsermode.Valid() && toDriver.contents == toUsermode.contents == []
  {
    toDriver.Free();
    toUsermode.Free();
  }

  /** The two reading loops, the kernel's first. */
  method ReadBoth(d: Driver, u: UserSide, toDriver: ListHead<UsedIoctl>, toUsermode: ListHead<UsedIoctl>,
                  env: Environment, out: ListHead<IoctlResult>) returns (inBounds: bool)
    requires toDriver.Valid() && toUsermode.Valid() && out.Valid() && u.illsig == 0
    requires Scripted(toDriver.contents, env.kernel) && |env.user| == |toUsermode.contents|
    modifies d, u, out, out.Nodes()
    ensures inBounds <==> RunInRange(d.cfg, toDriver.contents, env.kernel, |toDriver.contents|)
    ensures u.illsig == 0
    ensures out.Valid() && fresh(out.Nodes() - old(out.Nodes()))
    ensures inBounds ==>
              out.contents == old(out.contents)
                            + ResultsAfter(d.cfg, toDriver.contents, env.kernel, |toDriver.contents|)
                            + UserResults(u.table, u.aarch64, toUsermode.contents, env.user, |toUsermode.contents|)
  {
    hide ResultsAfter, UserResults, RunInRange;
    inBounds := BreakoutCallDriver(d, toDriver, env.kernel, out);
    if inBounds {
      BreakoutCallUsermode(u, toUsermode, env.user, out);
    }
  }

  // ----- breakout_parse_results_value -----

  /** All requests are for one register and carry one value. */
  ghost predicate OneRegister(reqs: seq<Request>) {
    && reqs != []
    && forall i :: 0 <= i < |reqs| ==>
         reqs[i].registerUid == reqs[0].registerUid && reqs[i].calcValue == reqs[0].calcValue
  }

  /** `breakout_value_validate`. */
  method ValueValidate(matches: ListHead<Request>) returns (result: int, register: u32, value: u64)
    requires matches.Valid()
    ensures result == if OneRegister(matches.contents) then 0 else -1
    ensures result == 0 ==> register == matches.contents[0].registerUid && value == matches.contents[0].calcValue
  {
    register, value := 0, 0;
    var validate := matches.head;
    if validate == null {
      return -1, register, value;
    }
    assert matches.LinkedAt(0);
    register := validate.data.registerUid;
    value := validate.data.calcValue;
    ghost var i := 0;
    while validate != null
      invariant 0 <= i <= |matches.contents| && validate == matches.NodeAt(i)
      invariant forall k :: 0 <= k < i ==>
                  matches.contents[k].registerUid == register && matches.contents[k].calcValue == value
      decreases |matches.contents| - i
    {
      assert matches.LinkedAt(i);
      if register != validate.data.registerUid || value != validate.data.calcValue {
        return -1, register, value;
      }
      validate := validate.next;
      i := i + 1;
    }
    return 0, register, value;
  }

  /** A supplied value, as a raw result of no CPU. */
  function Supplied(register: u32, value: u64): IoctlResult {
    IoctlResult(register, value, 0, 0, 0, 0, 0, Success)
  }

  /** `breakout_parse_results_value`. */
  method ParseResultsValue(rows: seq<HeapRow>, matches: ListHead<Request>, out: ListHead<Populated>)
      returns (result: int)
    requires ShiftsInWord(rows) && matches.Valid() && out.Valid()
    modifies out, out.Nodes()
    ensures out.Valid() && fresh(out.Nodes() - old(out.Nodes()))
    ensures result == if OneRegister(matches.contents) then 0 else -1
    ensures out.contents ==
            if OneRegister(matches.contents) then
              ParseOne(rows, old(out.contents),
                       Supplied(matches.contents[0].registerUid, matches.contents[0].calcValue), matches.contents)
            else old(out.contents)
  {
    hide ParseOne;
    var valid, register, value := ValueValidate(matches);
    if valid != 0 {
      return -1;
    }
    var indices, masked := ParseResult(rows, Supplied(register, value), matches, out);
    ReleaseEmpty(indices);
    ReleaseEmpty(masked);
    return 0;
  }

  // ----- find_bitfields -----

  lemma {:induction false} MatchesShareInfo(rows: seq<HeapRow>, info: MatchInfo, n: nat)
    requires n <= |rows|
    ensures forall m :: 0 <= m < |Matches(rows, info, n)| ==>
              && Matches(rows, info, n)[m].cpu == info.cpu
              && Matches(rows, info, n)[m].noparse == info.noparse
              && Matches(rows, info, n)[m].calcValue == info.calcValue
  {
    hide Named, Admitted;
    if n > 0 {
      MatchesShareInfo(rows, info, n - 1);
    }
  }

  /** How a query ends: in behaviour that C leaves undefined, or with a result and the rows shown. */
  datatype Outcome = Undefined | Finished(result: int, shown: seq<Populated>)

  /** What a query makes of the rows that are there already. */
  ghost function Found(rows: seq<HeapRow>, cfg: Config, info: MatchInfo, env: Environment,
      before: seq<Populated>): (r: Outcome)
    requires ShiftsInWord(rows) && (info.supplied == 0 ==> Covers(env, Matches(rows, info, |rows|)))
    ensures r.Finished? ==> r.result == 0 || (r.result == -1 && r.shown == before)
  {
    var reqs := Matches(rows, info, |rows|);
    if info.supplied == 0 then
      var results := RawResults(cfg, reqs, env);
      if QueryInRange(cfg, reqs, env) && results != [] then
        Finished(0, ParseAll(rows, before, results, reqs, |results|))
      else Undefined
    else if OneRegister(reqs) then
      Finished(0, ParseOne(rows, before, Supplied(reqs[0].registerUid, reqs[0].calcValue), reqs))
    else Finished(-1, before)
  }

  /** The live branch of `find_bitfields`: read, then parse. */
  method ReadAndParse(rows: seq<HeapRow>, d: Driver, u: UserSide, requested: ListHead<Request>, env: Environment,
      list: ListHead<Populated>) returns (defined: bool)
    requires ShiftsInWord(rows) && requested.Valid() && list.Valid()
    requires u.illsig == 0 && u.table == d.cfg.funcTable && u.aarch64 == d.cfg.aarch64
    requires Covers(env, requested.contents)
    modifies d, u, list, list.Nodes()
    ensures defined <==>
              QueryInRange(d.cfg, requested.contents, env) && RawResults(d.cfg, requested.contents, env) != []
    ensures u.illsig == 0
    ensures list.Valid() && fresh(list.Nodes() - old(list.Nodes()))
    ensures defined ==>
              list.contents == ParseAll(rows, old(list.contents), RawResults(d.cfg, requested.contents, env),
                                        requested.contents, |RawResults(d.cfg, requested.contents, env)|)
  {
    hide ParseAll, RawResults, ShiftsInWord, QueryInRange, Covers, ListHead.Valid;
    var results := new ListHead<IoctlResult>();
    var within := SortIoctls(d, u, requested, env, results);
    if !within {
      return false;
    }
    assert results.contents == RawResults(d.cfg, requested.contents, env);
    defined := ParseResults(rows, results, requested, list);
    results.Free();
  }

  /** `find_bitfields`. */
  method FindBitfields(table: BitfieldHeap, d: Driver, u: UserSide, info: MatchInfo, env: Environment,
      list: ListHead<Populated>)
    returns (result: int, defined: bool)
    requires table.Valid() && ShiftsInWord(table.Rows()) && list.Valid()
    requires u.illsig == 0 && u.table == d.cfg.funcTable && u.aarch64 == d.cfg.aarch64
    requires info.supplied == 0 ==> Covers(env, Matches(table.Rows(), info, |table.Rows()|))
    modifies d, u, list, list.Nodes()
    ensures list.Valid() && fresh(list.Nodes() - old(list.Nodes())) && u.illsig == 0
    ensures defined <==> Found(old(table.Rows()), d.cfg, info, env, old(list.contents)).Finished?
    ensures defined ==>
              Found(old(table.Rows()), d.cfg, info, env, old(list.contents)) == Finished(result, list.contents)
  {
    hide Matches, ParseAll, ParseOne, RawResults, ShiftsInWord, QueryInRange, Covers, OneRegister, ListHead.Valid;
    var rows := table.heap[..table.size];
    var requested := new ListHead<Request>();
    SearchTable(rows, info, requested);
    assert requested.contents == Matches(rows, info, |rows|);
    if info.supplied == 0 {
      defined := ReadAndParse(rows, d, u, requested, env, list);
      result := 0;
    } else {
      result := ParseResultsValue(rows, requested, list);
      defined := true;
    }
    requested.Free();
  }

  // ----- when a live query is undefined -----

  /** Every kernel read of a query is for the CPU that the query asks for. */
  lemma {:induction false} ReadsShareCpu(rows: seq<HeapRow>, info: MatchInfo, n: nat)
    requires n < |KernelTodo(Matches(rows, info, |rows|))|
    ensures KernelTodo(Matches(rows, info, |rows|))[n].cpu == info.cpu
  {
    hide Matches, FirstRoutable, ToKernel, KernelReads, Kept;
    var reqs := Matches(rows, info, |rows|);
    MatchesShareInfo(rows, info, |rows|);
    KernelReadsExact(reqs, |reqs|, KernelTodo(reqs)[n]);
  }

  /** Some kernel read is delivered, to a reader if `reading` is asked for. */
  ghost predicate SomeDelivered(cfg: Config, ioctls: seq<UsedIoctl>, script: seq<Step>, reading: bool) {
    exists n :: 0 <= n < |ioctls| && n < |script| && Delivered(script[n])
                && (reading ==> ReaderOfRead(cfg, ioctls[n]) != NoReader)
  }

  ghost predicate SomeUserReader(cfg: Config, ioctls: seq<UsedIoctl>) {
    exists k :: 0 <= k < |ioctls| && HasReader(cfg.funcTable, ioctls[k].registerUid)
  }

  lemma {:induction false} NoKernelResults(cfg: Config, ioctls: seq<UsedIoctl>, script: seq<Step>, n: nat)
    requires Scripted(ioctls, script) && n <= |ioctls|
    ensures ResultsAfter(cfg, ioctls, script, n) == [] <==> forall k :: 0 <= k < n ==> !Delivered(script[k])
  {
    hide SlotsAfter;
    if n > 0 {
      NoKernelResults(cfg, ioctls, script, n - 1);
    }
  }

  lemma {:induction false} NoUserResults(table: seq<FuncEntry>, aarch64: bool, ioctls: seq<UsedIoctl>,
      script: seq<UserEvent>, n: nat)
    requires n <= |ioctls| == |script|
    ensures UserResults(table, aarch64, ioctls, script, n) == []
       <==> forall k :: 0 <= k < n ==> !HasReader(table, ioctls[k].registerUid)
  {
    hide HasReader, EntryFor;
    if n > 0 {
      NoUserResults(table, aarch64, ioctls, script, n - 1);
    }
  }

  /** There is nothing to parse exactly when no kernel read is delivered and no register that goes to
      user mode has a reader. */
  lemma {:induction false} NothingRead(cfg: Config, reqs: seq<Request>, env: Environment)
    requires Covers(env, reqs)
    ensures RawResults(cfg, reqs, env) == []
       <==> !SomeDelivered(cfg, KernelTodo(reqs), env.kernel, false) && !SomeUserReader(cfg, UserTodo(reqs))
  {
    hide ResultsAfter, UserResults, KernelReads, UserReads, Kept, HasReader, ReaderOfRead;
    NoKernelResults(cfg, KernelTodo(reqs), env.kernel, |KernelTodo(reqs)|);
    NoUserResults(cfg.funcTable, cfg.aarch64, UserTodo(reqs), env.user, |UserTodo(reqs)|);
  }

  /** A live query is undefined exactly when it reads nothing, so that uninitialised list heads are
      released, or when it asks for the CPU number that is one too large and some delivered read of it
      has a reader, so that a status is written behind the last slot. */
  lemma {:induction false} UndefinedExactly(rows: seq<HeapRow>, cfg: Config, info: MatchInfo, env: Environment,
      before: seq<Populated>)
    requires ShiftsInWord(rows) && Covers(env, Matches(rows, info, |rows|)) && info.supplied == 0
    ensures var reqs := Matches(rows, info, |rows|);
            Found(rows, cfg, info, env, before).Undefined?
            <==> (!SomeDelivered(cfg, KernelTodo(reqs), env.kernel, false) && !SomeUserReader(cfg, UserTodo(reqs)))
                 || (info.cpu == MS_MAX_CPUS && SomeDelivered(cfg, KernelTodo(reqs), env.kernel, true))
  {
    hide Matches, RawResults, KernelTodo, UserTodo, ParseAll, ShiftsInWord, SomeUserReader, ReaderFor;
    var reqs := Matches(rows, info, |rows|);
    NothingRead(cfg, reqs, env);
    forall n | 0 <= n < |KernelTodo(reqs)|
      ensures KernelTodo(reqs)[n].cpu == info.cpu
    {
      ReadsShareCpu(rows, info, n);
    }
  }

  lemma {:induction false} NoMatches(rows: seq<HeapRow>, info: MatchInfo, n: nat)
    requires n <= |rows| && forall i :: 0 <= i < n ==> !(Named(rows[i], info) && Admitted(rows[i], info))
    ensures Matches(rows, info, n) == []
  {
    hide Named, Admitted;
    if n > 0 {
      NoMatches(rows, info, n - 1);
    }
  }

  /** The failing input: a live query that matches no row, with a misspelt register name, say, or one of
      another architecture, is undefined, whatever the machine does. */
  lemma {:induction false} NoMatchIsUndefined(rows: seq<HeapRow>, cfg: Config, info: MatchInfo, env: Environment,
      before: seq<Populated>)
    requires ShiftsInWord(rows) && Covers(env, Matches(rows, info, |rows|)) && info.supplied == 0
    requires forall i :: 0 <= i < |rows| ==> !(Named(rows[i], info) && Admitted(rows[i], info))
    ensures Found(rows, cfg, info, env, before) == Undefined
  {
    hide Named, Admitted, Matches, ShiftsInWord, ParseAll, RawResults;
    NoMatches(rows, info, |rows|);
    NothingRead(cfg, Matches(rows, info, |rows|), env);
  }

  // ----- a supplied value, end to end -----

  /** The matched rows below `n`, each decoded from `r`. */
  ghost function DecodedMatches(rows: seq<HeapRow>, info: MatchInfo, r: IoctlResult, n: nat): seq<Populated>
    requires n <= |rows|
  {
    if n == 0 then []
    else if Named(rows[n - 1], info) && Admitted(rows[n - 1], info) then
      DecodedMatches(rows, info, r, n - 1) + [Decoded(rows, n - 1, r)]
    else DecodedMatches(rows, info, r, n - 1)
  }

  lemma {:induction false} ForRequestsPrefix(rows: seq<HeapRow>, r: IoctlResult, a: seq<Request>, b: seq<Request>,
      parse: bool, n: nat)
    requires n <= |a| && a <= b
    ensures ForRequests(rows, r, a, parse, n) == ForRequests(rows, r, b, parse, n)
  {
    hide RowsFor;
    if n > 0 {
      ForRequestsPrefix(rows, r, a, b, parse, n - 1);
    }
  }

  lemma {:induction false} AnswersOwnRow(rows: seq<HeapRow>, info: MatchInfo, r: IoctlResult, i: nat)
    requires UidsDistinct(rows) && i < |rows| && rows[i].registerUid == r.registerUid && r.midr == 0
    ensures RowsFor(rows, r, RequestFor(rows[i], info), true) == [Decoded(rows, i, r)]
  {
    hide Decoded, ImplFromMidr, ArchFromMidr, MscodePart, UidsDistinct, IndexOf;
    LookupInverts(rows);
  }

  lemma {:induction false} SuppliedDecodesMatches(rows: seq<HeapRow>, info: MatchInfo, r: IoctlResult, n: nat)
    requires UidsDistinct(rows) && n <= |rows| && r.midr == 0
    requires forall m :: 0 <= m < |Matches(rows, info, n)| ==> Matches(rows, info, n)[m].registerUid == r.registerUid
    ensures ForRequests(rows, r, Matches(rows, info, n), true, |Matches(rows, info, n)|)
         == DecodedMatches(rows, info, r, n)
  {
    hide Named, Admitted, RowsFor, Decoded, UidsDistinct;
    if n > 0 {
      var before, reqs := Matches(rows, info, n - 1), Matches(rows, info, n);
      assert forall m :: 0 <= m < |before| ==> reqs[m] == before[m];
      SuppliedDecodesMatches(rows, info, r, n - 1);
      if Named(rows[n - 1], info) && Admitted(rows[n - 1], info) {
        assert reqs[|before|] == RequestFor(rows[n - 1], info);
        ForRequestsPrefix(rows, r, before, reqs, true, |before|);
        AnswersOwnRow(rows, info, r, n - 1);
      }
    }
  }

  /** Decoding a supplied value, in parsed mode: the query fails, and appends nothing, unless its
      matches name exactly one register; otherwise it appends, for every matched row in table order
      and for nothing else, that row's bits of the supplied value. */
  lemma {:induction false} SuppliedValueExact(rows: seq<HeapRow>, cfg: Config, info: MatchInfo, env: Environment,
      before: seq<Populated>)
    requires ShiftsInWord(rows) && UidsDistinct(rows) && info.supplied != 0 && info.noparse != 1
    ensures OneRegister(Matches(rows, info, |rows|))
       <==> SameRegister(rows, MatchIndices(rows, info, |rows|))
    ensures Found(rows, cfg, info, env, before)
         == if OneRegister(Matches(rows, info, |rows|)) then
              Finished(0, before
                          + DecodedMatches(rows, info,
                                           Supplied(Matches(rows, info, |rows|)[0].registerUid, info.calcValue),
                                           |rows|))
            else Finished(-1, before)
  {
    hide Matches, MatchIndices, UidsDistinct, ShiftsInWord, JoinAll, ForRequests, DecodedMatches, Covers, Masked, Known;
    var reqs := Matches(rows, info, |rows|);
    MatchesShareInfo(rows, info, |rows|);
    OneRegisterOfMatches(rows, info);
    if OneRegister(reqs) {
      var r := Supplied(reqs[0].registerUid, info.calcValue);
      MaskedKnown(rows, r, |rows|);
      JoinAllParsed(rows, before, r, reqs, |reqs|);
      SuppliedDecodesMatches(rows, info, r, |rows|);
    }
  }

  /** There are rows, and they are all of one register. */
  ghost predicate SameRegister(rows: seq<HeapRow>, indices: seq<nat>)
    requires forall m :: 0 <= m < |indices| ==> indices[m] < |rows|
  {
    indices != [] && forall m :: 0 <= m < |indices| ==> rows[indices[m]].registerUid == rows[indices[0]].registerUid
  }

  lemma {:induction false} OneRegisterOfMatches(rows: seq<HeapRow>, info: MatchInfo)
    ensures OneRegister(Matches(rows, info, |rows|))
       <==> SameRegister(rows, MatchIndices(rows, info, |rows|))
  {
    hide Matches, MatchIndices;
    MatchesShareInfo(rows, info, |rows|);
    MatchesAtIndices(rows, info, |rows|);
  }

  /** The bit fields of the matched rows below `n`. */
  ghost function FieldsOf(rows: seq<HeapRow>, info: MatchInfo, n: nat): seq<Field>
    requires n <= |rows|
  {
    if n == 0 then []
    else if Named(rows[n - 1], info) && Admitted(rows[n - 1], info) then
      FieldsOf(rows, info, n - 1) + [Field(rows[n - 1].rightshift, rows[n - 1].mask)]
    else FieldsOf(rows, info, n - 1)
  }

  /** The shown values, each at the weight of its field, added up. */
  ghost function WeightedSum(ps: seq<Populated>, fs: seq<Field>): nat
    requires |ps| == |fs|
  {
    if ps == [] then 0 else Shl(ps[0].value, fs[0].shift) + WeightedSum(ps[1..], fs[1..])
  }

  lemma {:induction false} DecodedFieldValues(rows: seq<HeapRow>, info: MatchInfo, r: IoctlResult, n: nat)
    requires n <= |rows| && ShiftsInWord(rows)
    ensures |DecodedMatches(rows, info, r, n)| == |FieldsOf(rows, info, n)|
    ensures forall m :: 0 <= m < |FieldsOf(rows, info, n)| ==>
              && FieldsOf(rows, info, n)[m].shift < 64
              && DecodedMatches(rows, info, r, n)[m].value
                 == ApplyMask(RawValue(r), FieldsOf(rows, info, n)[m].shift, FieldsOf(rows, info, n)[m].width)
  {
    hide Named, Admitted, ApplyMask, RawValue, Pow2;
    if n > 0 {
      DecodedFieldValues(rows, info, r, n - 1);
      FieldValue(RawValue(r), rows[n - 1].rightshift, rows[n - 1].mask);
    }
  }

  lemma {:induction false} WeightedSumIsReassembly(v: u64, ps: seq<Populated>, fs: seq<Field>)
    requires |ps| == |fs| && forall f :: f in fs ==> f.shift < 64
    requires forall m :: 0 <= m < |fs| ==> ps[m].value == ApplyMask(v, fs[m].shift, fs[m].width)
    ensures WeightedSum(ps, fs) == Reassemble(v, fs)
  {
    hide ApplyMask, Shl;
    if ps != [] {
      WeightedSumIsReassembly(v, ps[1..], fs[1..]);
    }
  }

  /** A supplied value is shown without loss: when the matched rows tile the low bits of their one
      register, the shown values put back at their weights are the supplied value, modulo two to the
      width that they cover. */
  lemma {:induction false} SuppliedValueRecovered(rows: seq<HeapRow>, cfg: Config, info: MatchInfo, env: Environment)
    requires ShiftsInWord(rows) && UidsDistinct(rows)
    requires info.supplied != 0 && info.noparse != 1 && OneRegister(Matches(rows, info, |rows|))
    requires ContiguousFrom(FieldsOf(rows, info, |rows|), 0) && TotalWidth(FieldsOf(rows, info, |rows|)) <= 64
    ensures Found(rows, cfg, info, env, []).Finished?
    ensures |Found(rows, cfg, info, env, []).shown| == |FieldsOf(rows, info, |rows|)|
    ensures WeightedSum(Found(rows, cfg, info, env, []).shown, FieldsOf(rows, info, |rows|))
         == info.calcValue % Pow2(TotalWidth(FieldsOf(rows, info, |rows|)))
  {
    hide Matches, UidsDistinct, ShiftsInWord, Found, DecodedMatches, FieldsOf, Covers;
    hide ApplyMask, Pow2, ContiguousFrom, TotalWidth;
    var r := Supplied(Matches(rows, info, |rows|)[0].registerUid, info.calcValue);
    var shown, fields := DecodedMatches(rows, info, r, |rows|), FieldsOf(rows, info, |rows|);
    SuppliedValueExact(rows, cfg, info, env, []);
    assert [] + shown == shown;
    DecodedFieldValues(rows, info, r, |rows|);
    WeightedSumIsReassembly(info.calcValue, shown, fields);
    LosslessDecode(info.calcValue, fields);
  }

  // ----- a live query, end to end -----

  /** A faithful account of one kernel read on one slot; it names the slot's CPU once a reader has run
      there, and CPU 0 until then. */
  ghost predicate FromKernel(cfg: Config, ioctls: seq<UsedIoctl>, script: seq<Step>, r: IoctlResult)
    requires Scripted(ioctls, script)
  {
    exists n, i | 0 <= n < |ioctls| && 0 <= i < MS_MAX_CPUS ::
      && Delivered(script[n]) && Faithful(cfg, ioctls[n], script[n].cpus, i, r)
      && r.cpu == if RanOn(cfg, ioctls, script, n + 1, i) then i else 0
  }

  ghost predicate FromUser(cfg: Config, ioctls: seq<UsedIoctl>, script: seq<UserEvent>, r: IoctlResult) {
    exists k | 0 <= k < |ioctls| && k < |script| ::
      HasReader(cfg.funcTable, ioctls[k].registerUid)
      && r == UserResult(ioctls[k], EntryFor(cfg.funcTable, ioctls[k].registerUid), cfg.aarch64, script[k])
  }

  /** Every raw result of a query is a faithful account of one read of that query. */
  lemma {:induction false} RawResultsFaithful(cfg: Config, reqs: seq<Request>, env: Environment, r: IoctlResult)
    requires Covers(env, reqs) && r in RawResults(cfg, reqs, env)
    ensures FromKernel(cfg, KernelTodo(reqs), env.kernel, r) || FromUser(cfg, UserTodo(reqs), env.user, r)
  {
    hide ResultsAfter, UserResults, Faithful, KernelReads, UserReads, Kept, EntryFor, HasReader, UserResult, RanOn;
    var kernel, user := KernelTodo(reqs), UserTodo(reqs);
    var results := ResultsAfter(cfg, kernel, env.kernel, |kernel|);
    if r in results {
      var m :| 0 <= m < |results| && results[m] == r;
      ResultOrigins(cfg, kernel, env.kernel, |kernel|);
      EveryResultFaithful(cfg, kernel, env.kernel, m);
      CpuAttributed(cfg, kernel, env.kernel, m);
    } else {
      UserResultsExact(cfg.funcTable, cfg.aarch64, user, env.user, |user|, r);
    }
  }

  /** Where a row of the comprehension comes from. */
  ghost predicate DecodedFrom(rows: seq<HeapRow>, results: seq<IoctlResult>, parse: bool, p: Populated, i: nat,
      r: IoctlResult) {
    && i < |rows| && r in results && rows[i].registerUid == r.registerUid
    && p == if parse then Decoded(rows, i, r) else Undecoded(rows, i, r)
  }

  lemma {:induction false} RequestRowsSource(rows: seq<HeapRow>, r: IoctlResult, reqs: seq<Request>, parse: bool,
      n: nat, p: Populated)
    requires n <= |reqs| && p in ForRequests(rows, r, reqs, parse, n)
    ensures exists i :: DecodedFrom(rows, [r], parse, p, i, r)
  {
    hide Decoded, Undecoded, IndexOf, Gate;
    if p in ForRequests(rows, r, reqs, parse, n - 1) {
      RequestRowsSource(rows, r, reqs, parse, n - 1, p);
    } else {
      assert DecodedFrom(rows, [r], parse, p, IndexOf(rows, reqs[n - 1].uid), r);
    }
  }

  lemma {:induction false} ResultRowsSource(rows: seq<HeapRow>, results: seq<IoctlResult>, reqs: seq<Request>,
      parse: bool, n: nat, p: Populated)
    requires n <= |results| && p in ForResults(rows, results, reqs, parse, n)
    ensures exists i, r :: DecodedFrom(rows, results, parse, p, i, r)
  {
    hide Decoded, Undecoded, ForRequests;
    if p in ForResults(rows, results, reqs, parse, n - 1) {
      ResultRowsSource(rows, results, reqs, parse, n - 1, p);
    } else {
      RequestRowsSource(rows, results[n - 1], reqs, parse, |reqs|, p);
      var i :| DecodedFrom(rows, [results[n - 1]], parse, p, i, results[n - 1]);
      assert DecodedFrom(rows, results, parse, p, i, results[n - 1]);
    }
  }

  /** A live query in parsed mode, end to end: unless it is undefined it appends the comprehension over
      its raw results and its matches, and every row that it appends is one table row decoded from a
      faithful account of one read, so that a row with status success shows bits of the value read in
      this query. */
  lemma {:induction false} LiveQueryExact(rows: seq<HeapRow>, cfg: Config, info: MatchInfo, env: Environment,
      before: seq<Populated>)
    requires ShiftsInWord(rows) && UidsDistinct(rows) && Covers(env, Matches(rows, info, |rows|))
    requires info.supplied == 0 && info.noparse != 1
    ensures Found(rows, cfg, info, env, before)
         == if QueryInRange(cfg, Matches(rows, info, |rows|), env)
               && RawResults(cfg, Matches(rows, info, |rows|), env) != [] then
              Finished(0, before + ForResults(rows, RawResults(cfg, Matches(rows, info, |rows|), env),
                                              Matches(rows, info, |rows|), true,
                                              |RawResults(cfg, Matches(rows, info, |rows|), env)|))
            else Undefined
    ensures Found(rows, cfg, info, env, before).Finished? ==>
              forall k :: |before| <= k < |Found(rows, cfg, info, env, before).shown| ==>
                RowIsTrue(rows, cfg, Matches(rows, info, |rows|), env, true,
                          Found(rows, cfg, info, env, before).shown[k])
  {
    hide Matches, UidsDistinct, ShiftsInWord, ParseAll, ForResults, RawResults, Covers, QueryInRange, RowIsTrue;
    var reqs := Matches(rows, info, |rows|);
    var results := RawResults(cfg, reqs, env);
    MatchesShareInfo(rows, info, |rows|);
    PipelineIsComprehension(rows, before, results, reqs, |results|);
    if Found(rows, cfg, info, env, before).Finished? {
      var shown := Found(rows, cfg, info, env, before).shown;
      forall k | |before| <= k < |shown|
        ensures RowIsTrue(rows, cfg, reqs, env, true, shown[k])
      {
        RowsAreTrue(rows, cfg, reqs, env, true, shown[k]);
      }
    }
  }

  /** A live query in unparsed mode, end to end, on an empty list: unless it is undefined, register, CPU
      and status never repeat, every answered pair of a result and a request has its key shown, and
      every row is the whole value of a faithful account of one read, the first with its key. */
  lemma {:induction false} LiveUnparsedQueryExact(rows: seq<HeapRow>, cfg: Config, info: MatchInfo, env: Environment)
    requires ShiftsInWord(rows) && UidsDistinct(rows) && Covers(env, Matches(rows, info, |rows|))
    requires info.supplied == 0 && info.noparse == 1
    ensures Found(rows, cfg, info, env, []).Finished?
       <==> QueryInRange(cfg, Matches(rows, info, |rows|), env)
            && RawResults(cfg, Matches(rows, info, |rows|), env) != []
    ensures Found(rows, cfg, info, env, []).Finished? ==>
              && Found(rows, cfg, info, env, []).result == 0
              && IsFirstPerKey(rows, cfg, info, env, Found(rows, cfg, info, env, []).shown)
  {
    hide Matches, UidsDistinct, ShiftsInWord, ParseAll, ForResults, RawResults, Covers, QueryInRange;
    hide RowIsTrue, KeysDistinct, KeySeen;
    var reqs := Matches(rows, info, |rows|);
    MatchesShareInfo(rows, info, |rows|);
    UnparsedPipelineExact(rows, RawResults(cfg, reqs, env), reqs);
    if Found(rows, cfg, info, env, []).Finished? {
      var shown := Found(rows, cfg, info, env, []).shown;
      forall k | 0 <= k < |shown|
        ensures RowIsTrue(rows, cfg, reqs, env, false, shown[k])
      {
        RowsAreTrue(rows, cfg, reqs, env, false, shown[k]);
      }
    }
  }

  /** The rows show each key of the answered pairs once, with the first whole value that has it. */
  ghost predicate IsFirstPerKey(rows: seq<HeapRow>, cfg: Config, info: MatchInfo, env: Environment,
      shown: seq<Populated>)
    requires Covers(env, Matches(rows, info, |rows|))
  {
    && KeysDistinct(shown)
    && (forall x :: KeySeen(shown, x) <==> KeySeen(Pairs(rows, cfg, info, env), x))
    && forall k :: 0 <= k < |shown| ==>
         && FirstWithKey(Pairs(rows, cfg, info, env), shown[k])
         && RowIsTrue(rows, cfg, Matches(rows, info, |rows|), env, false, shown[k])
  }

  /** The whole register value for every result and every request that it answers. */
  ghost function Pairs(rows: seq<HeapRow>, cfg: Config, info: MatchInfo, env: Environment): seq<Populated>
    requires Covers(env, Matches(rows, info, |rows|))
  {
    var reqs := Matches(rows, info, |rows|);
    ForResults(rows, RawResults(cfg, reqs, env), reqs, false, |RawResults(cfg, reqs, env)|)
  }

  /** The row is a table row decoded from a faithful account of one read of the query. */
  ghost predicate RowIsTrue(rows: seq<HeapRow>, cfg: Config, reqs: seq<Request>, env: Environment, parse: bool,
      p: Populated)
    requires Covers(env, reqs)
  {
    exists i: nat, r: IoctlResult :: DecodedFrom(rows, [r], parse, p, i, r)
      && (FromKernel(cfg, KernelTodo(reqs), env.kernel, r) || FromUser(cfg, UserTodo(reqs), env.user, r))
  }

  lemma {:induction false} RowsAreTrue(rows: seq<HeapRow>, cfg: Config, reqs: seq<Request>, env: Environment,
      parse: bool, p: Populated)
    requires Covers(env, reqs)
    requires p in ForResults(rows, RawResults(cfg, reqs, env), reqs, parse, |RawResults(cfg, reqs, env)|)
    ensures RowIsTrue(rows, cfg, reqs, env, parse, p)
  {
    hide Decoded, Undecoded, ForResults, RawResults, Covers, FromKernel, FromUser;
    var results := RawResults(cfg, reqs, env);
    ResultRowsSource(rows, results, reqs, parse, |results|, p);
    var i: nat, r :| DecodedFrom(rows, results, parse, p, i, r);
    RawResultsFaithful(cfg, reqs, env, r);
    assert DecodedFrom(rows, [r], parse, p, i, r);
  }
}
