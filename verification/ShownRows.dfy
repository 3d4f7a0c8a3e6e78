/** What a live query shows of a matched table row: the values that its own reads returned, and which
    of them. */
module ShownRows {
  import opened Bits
  import opened Parse
  import opened Decode
  import opened Tables
  import opened Lookup
  import opened Routing
  import opened Join
  import opened JoinSpec
  import opened FuncTable
  import opened KernelEngine
  import opened KernelRun
  import opened KernelSafety
  import opened UserEngine
  import opened Query

  // ----- the rows of a comprehension -----

  /** The row that a result shows for a table row, parsed or not. */
  ghost function ShownAs(rows: seq<HeapRow>, c: nat, r: IoctlResult, parse: bool): Populated
    requires c < |rows|
  {
    if parse then Decoded(rows, c, r) else Undecoded(rows, c, r)
  }

  ghost predicate AnswersWith(rows: seq<HeapRow>, r: IoctlResult, q: Request, parse: bool, p: Populated) {
    Answers(rows, r, q) && p == ShownAs(rows, IndexOf(rows, q.uid), r, parse)
  }

  lemma {:induction false} RequestsMember(rows: seq<HeapRow>, r: IoctlResult, reqs: seq<Request>, parse: bool, n: nat,
      p: Populated)
    requires n <= |reqs|
    ensures p in ForRequests(rows, r, reqs, parse, n)
       <==> exists a :: 0 <= a < n && AnswersWith(rows, r, reqs[a], parse, p)
  {
    hide Answers, Decoded, Undecoded, IndexOf;
    if n > 0 {
      RequestsMember(rows, r, reqs, parse, n - 1, p);
    }
  }

  lemma {:induction false} ResultsMember(rows: seq<HeapRow>, results: seq<IoctlResult>, reqs: seq<Request>, parse: bool,
      n: nat, p: Populated)
    requires n <= |results|
    ensures p in ForResults(rows, results, reqs, parse, n)
       <==> exists m :: 0 <= m < n && p in ForRequests(rows, results[m], reqs, parse, |reqs|)
  {
    hide ForRequests;
    if n > 0 {
      ResultsMember(rows, results, reqs, parse, n - 1, p);
    }
  }

  /** The result is of the row's register, and its MIDR opens the gate for the row's part. */
  ghost predicate RowAnswers(row: HeapRow, r: IoctlResult) {
    r.registerUid == row.registerUid && Gate(r.midr, MscodePart(row.uid))
  }

  /** The row is one that the query asks for. */
  ghost predicate Matched(rows: seq<HeapRow>, info: MatchInfo, c: nat)
    requires c < |rows|
  {
    Named(rows[c], info) && Admitted(rows[c], info)
  }

  /** A result shows a matched row exactly when it answers it, and then as the row decoded from it. */
  lemma {:induction false} MatchedRowAnswered(rows: seq<HeapRow>, info: MatchInfo, c: nat, r: IoctlResult, parse: bool,
      p: Populated)
    requires UidsDistinct(rows) && c < |rows| && Matched(rows, info, c) && p.uid == rows[c].uid
    ensures p in ForRequests(rows, r, Matches(rows, info, |rows|), parse, |Matches(rows, info, |rows|)|)
       <==> RowAnswers(rows[c], r) && p == ShownAs(rows, c, r, parse)
  {
    hide Matches, Named, Admitted, Gate, UidsDistinct, IndexOf, MscodePart, ForRequests, RawValue, Pow2;
    var reqs, indices := Matches(rows, info, |rows|), MatchIndices(rows, info, |rows|);
    MatchesAtIndices(rows, info, |rows|);
    MatchesExact(rows, info, |rows|);
    LookupInverts(rows);
    RequestsMember(rows, r, reqs, parse, |reqs|, p);
    forall a | 0 <= a < |reqs|
      ensures AnswersWith(rows, r, reqs[a], parse, p) ==> RowAnswers(rows[c], r) && p == ShownAs(rows, c, r, parse)
    {
      assert reqs[a] == RequestFor(rows[indices[a]], info);
    }
    assert c in indices;
    var a :| 0 <= a < |indices| && indices[a] == c;
    assert reqs[a] == RequestFor(rows[c], info);
    assert RowAnswers(rows[c], r) && p == ShownAs(rows, c, r, parse) ==> AnswersWith(rows, r, reqs[a], parse, p);
  }

  lemma {:induction false} MatchedRowShown(rows: seq<HeapRow>, results: seq<IoctlResult>, info: MatchInfo, parse: bool,
      c: nat, p: Populated)
    requires UidsDistinct(rows) && c < |rows| && Matched(rows, info, c) && p.uid == rows[c].uid
    ensures p in ForResults(rows, results, Matches(rows, info, |rows|), parse, |results|)
       <==> exists m :: 0 <= m < |results| && RowAnswers(rows[c], results[m])
                        && p == ShownAs(rows, c, results[m], parse)
  {
    hide Matches, Matched, UidsDistinct, RowAnswers, ShownAs, ForRequests, ForResults;
    var reqs := Matches(rows, info, |rows|);
    ResultsMember(rows, results, reqs, parse, |results|, p);
    forall m | 0 <= m < |results|
      ensures p in ForRequests(rows, results[m], reqs, parse, |reqs|)
         <==> RowAnswers(rows[c], results[m]) && p == ShownAs(rows, c, results[m], parse)
    {
      MatchedRowAnswered(rows, info, c, results[m], parse, p);
    }
  }

  /** Every row of the comprehension is that of a matched table row and a result that answers it. */
  lemma {:induction false} ComprehensionSource(rows: seq<HeapRow>, results: seq<IoctlResult>, info: MatchInfo,
      parse: bool, p: Populated)
    requires UidsDistinct(rows)
    requires p in ForResults(rows, results, Matches(rows, info, |rows|), parse, |results|)
    ensures exists c: nat, m: nat :: IsShownAs(rows, results, info, parse, p, c, m)
  {
    hide Matches, Named, Admitted, Gate, UidsDistinct, IndexOf, MscodePart, ForRequests, ForResults, RawValue, Pow2;
    var reqs, indices := Matches(rows, info, |rows|), MatchIndices(rows, info, |rows|);
    MatchesAtIndices(rows, info, |rows|);
    MatchesExact(rows, info, |rows|);
    LookupInverts(rows);
    ResultsMember(rows, results, reqs, parse, |results|, p);
    var m :| 0 <= m < |results| && p in ForRequests(rows, results[m], reqs, parse, |reqs|);
    RequestsMember(rows, results[m], reqs, parse, |reqs|, p);
    var a :| 0 <= a < |reqs| && AnswersWith(rows, results[m], reqs[a], parse, p);
    assert indices[a] in indices && reqs[a] == RequestFor(rows[indices[a]], info);
    assert IsShownAs(rows, results, info, parse, p, indices[a], m);
  }

  ghost predicate IsShownAs(rows: seq<HeapRow>, results: seq<IoctlResult>, info: MatchInfo, parse: bool, p: Populated,
      c: nat, m: nat)
  {
    && c < |rows| && Matched(rows, info, c) && m < |results| && RowAnswers(rows[c], results[m])
    && p == ShownAs(rows, c, results[m], parse)
  }

  /** In the fields: such a row has uid, register and names of its table row, and level, CPU, MIDR and status
      of its result. Parsed, it shows the result's value shifted and cut as the table row says, under
      the table row's bitfield and description; unparsed, the whole value. */
  lemma ShownInFields(rows: seq<HeapRow>, results: seq<IoctlResult>, info: MatchInfo, parse: bool, p: Populated, c: nat,
      m: nat)
    requires IsShownAs(rows, results, info, parse, p, c, m)
    ensures var row, r := rows[c], results[m];
            && p.uid == row.uid && p.ioctl == row.registerUid == r.registerUid
            && p.functionalGroup == row.functionalGroup && p.registerName == row.registerName
            && p.cpu == r.cpu && p.epl == r.epl && p.midr == r.midr && p.status == r.status
            && (parse ==>
                  && p.bitfield == row.bitfield && p.description == row.description
                  && p.value == if row.mask <= 64 then RawValue(r) / Pow2(row.rightshift) % Pow2(row.mask) else 0)
            && (!parse ==> p.bitfield == Label("Unparsed") && p.description == Label("None") && p.value == RawValue(r))
  {
    hide Matched, Gate, MscodePart, RawValue, Pow2;
  }

  // ----- shown values -----

  /** The bits of a register value that a row names. */
  ghost function FieldBits(row: HeapRow, v: u64): nat {
    QuotientIsNat(v, Pow2(row.rightshift));
    if row.mask <= 64 then v / Pow2(row.rightshift) % Pow2(row.mask) else 0
  }

  ghost predicate IsValue(p: Populated, uid: u32, epl: u32, cpu: nat, w: nat) {
    p.uid == uid && p.status == Success && p.epl == epl && p.cpu == cpu && p.value == w
  }

  /** Some row of the uid shows the value `w`, as a success on this CPU at this privilege level. */
  ghost predicate ShowsValue(shown: seq<Populated>, uid: u32, epl: u32, cpu: nat, w: nat) {
    exists k :: 0 <= k < |shown| && IsValue(shown[k], uid, epl, cpu, w)
  }

  ghost predicate Yields(row: HeapRow, r: IoctlResult, epl: u32, cpu: nat, w: nat) {
    && RowAnswers(row, r) && r.status == Success && r.epl == epl && r.cpu == cpu
    && w == FieldBits(row, RawValue(r))
  }

  ghost predicate SomeYields(row: HeapRow, results: seq<IoctlResult>, epl: u32, cpu: nat, w: nat) {
    exists m :: 0 <= m < |results| && Yields(row, results[m], epl, cpu, w)
  }

  lemma {:induction false} ValueFromResult(rows: seq<HeapRow>, results: seq<IoctlResult>, info: MatchInfo, c: nat,
      epl: u32, cpu: nat, w: nat)
    requires UidsDistinct(rows) && c < |rows| && Matched(rows, info, c)
    ensures ShowsValue(ForResults(rows, results, Matches(rows, info, |rows|), true, |results|), rows[c].uid,
                       epl, cpu, w)
       <==> SomeYields(rows[c], results, epl, cpu, w)
  {
    hide Matches, Matched, UidsDistinct, RowAnswers, RawValue, ForResults, Pow2;
    var added := ForResults(rows, results, Matches(rows, info, |rows|), true, |results|);
    if ShowsValue(added, rows[c].uid, epl, cpu, w) {
      var k :| 0 <= k < |added| && IsValue(added[k], rows[c].uid, epl, cpu, w);
      MatchedRowShown(rows, results, info, true, c, added[k]);
      var m :| 0 <= m < |results| && RowAnswers(rows[c], results[m]) && added[k] == Decoded(rows, c, results[m]);
      assert Yields(rows[c], results[m], epl, cpu, w);
    }
    if SomeYields(rows[c], results, epl, cpu, w) {
      var m :| 0 <= m < |results| && Yields(rows[c], results[m], epl, cpu, w);
      MatchedRowShown(rows, results, info, true, c, Decoded(rows, c, results[m]));
      assert IsValue(Decoded(rows, c, results[m]), rows[c].uid, epl, cpu, w);
    }
  }

  lemma SomeYieldsConcat(row: HeapRow, a: seq<IoctlResult>, b: seq<IoctlResult>, epl: u32, cpu: nat, w: nat)
    ensures SomeYields(row, a + b, epl, cpu, w) <==> SomeYields(row, a, epl, cpu, w) || SomeYields(row, b, epl, cpu, w)
  {
    hide Yields;
    if SomeYields(row, a, epl, cpu, w) {
      var m :| 0 <= m < |a| && Yields(row, a[m], epl, cpu, w);
      assert Yields(row, (a + b)[m], epl, cpu, w);
    }
    if SomeYields(row, b, epl, cpu, w) {
      var m :| 0 <= m < |b| && Yields(row, b[m], epl, cpu, w);
      assert Yields(row, (a + b)[|a| + m], epl, cpu, w);
    }
  }

  // ----- kernel readings -----

  lemma {:induction false} OriginsComplete(script: seq<Step>, n: nat, o: Origin)
    requires n <= |script|
    ensures o in Origins(script, n)
       <==> o.n < n && o.i < 8 && script[o.n].deviceOpen && !script[o.n].ioctlFails
  {
    if n > 0 {
      OriginsComplete(script, n - 1, o);
      var last := seq(MS_MAX_CPUS, i requires 0 <= i => Origin(n - 1, i));
      if o.n == n - 1 && o.i < MS_MAX_CPUS {
        assert last[o.i] == o;
      }
    }
  }

  /** Read `n` is a delivered read of the row's register that succeeds on slot `i` and decodes to `w`. */
  ghost predicate Reading(cfg: Config, ioctls: seq<UsedIoctl>, script: seq<Step>, row: HeapRow, n: nat, i: nat, w: nat)
    requires Scripted(ioctls, script) && n < |ioctls| && i < MS_MAX_CPUS
  {
    && Delivered(script[n]) && ioctls[n].registerUid == row.registerUid
    && SucceedsAt(cfg, ioctls[n], script[n].cpus, i)
    && w == FieldBits(row, JoinedValue(cfg, ReaderOfRead(cfg, ioctls[n]).reader,
                                       LastRun(cfg, ioctls[n].cpu, script[n].cpus, i).ev))
  }

  /** The same, and the MIDR then in the slot opens the gate for the row's part. */
  ghost predicate AdmittedReading(cfg: Config, ioctls: seq<UsedIoctl>, script: seq<Step>, row: HeapRow, n: nat,
      i: nat, w: nat)
    requires Scripted(ioctls, script) && n < |ioctls| && i < MS_MAX_CPUS
  {
    Reading(cfg, ioctls, script, row, n, i, w) && Gate(LastMidr(cfg, ioctls, script, n + 1, i), MscodePart(row.uid))
  }

  ghost predicate SomeAdmittedReading(cfg: Config, ioctls: seq<UsedIoctl>, script: seq<Step>, row: HeapRow, i: nat,
      w: nat)
    requires Scripted(ioctls, script) && i < MS_MAX_CPUS
  {
    exists n :: 0 <= n < |ioctls| && AdmittedReading(cfg, ioctls, script, row, n, i, w)
  }

  /** Result `m` yields the value exactly when the reading that it comes from is an admitted one. */
  lemma {:induction false} ResultYields(cfg: Config, ioctls: seq<UsedIoctl>, script: seq<Step>, row: HeapRow, m: nat,
      i: nat, w: nat)
    requires Scripted(ioctls, script) && m < |Origins(script, |ioctls|)| && i < MS_MAX_CPUS
    ensures |ResultsAfter(cfg, ioctls, script, |ioctls|)| == |Origins(script, |ioctls|)|
    ensures Yields(row, ResultsAfter(cfg, ioctls, script, |ioctls|)[m], NS_PRIVILEGE_LEVEL_1, i, w)
       <==> Origins(script, |ioctls|)[m].i == i
            && AdmittedReading(cfg, ioctls, script, row, Origins(script, |ioctls|)[m].n, i, w)
  {
    hide ResultsAfter, SlotsAfter, LastMidr, SucceedsAt, ExpectedStatus, ReaderOfRead, LastRun, JoinedValue, FieldBits;
    hide Gate, RawValue, RegisterValue, Transportable, MscodePart;
    var o := Origins(script, |ioctls|)[m];
    EveryResultFaithful(cfg, ioctls, script, m);
    ResultOrigins(cfg, ioctls, script, |ioctls|);
    MidrInSlot(cfg, ioctls, script, o.n + 1, o.i);
    SuccessStatus(cfg, ioctls[o.n], script[o.n].cpus, o.i);
  }

  lemma {:induction false} KernelYields(cfg: Config, ioctls: seq<UsedIoctl>, script: seq<Step>, row: HeapRow, i: nat,
      w: nat)
    requires Scripted(ioctls, script) && i < MS_MAX_CPUS
    ensures SomeYields(row, ResultsAfter(cfg, ioctls, script, |ioctls|), NS_PRIVILEGE_LEVEL_1, i, w)
       <==> SomeAdmittedReading(cfg, ioctls, script, row, i, w)
  {
    hide ResultsAfter, Yields, Gate, LastMidr, SucceedsAt, FieldBits, JoinedValue, ReaderOfRead, LastRun, MscodePart;
    var results, origins := ResultsAfter(cfg, ioctls, script, |ioctls|), Origins(script, |ioctls|);
    ResultOrigins(cfg, ioctls, script, |ioctls|);
    if SomeYields(row, results, NS_PRIVILEGE_LEVEL_1, i, w) {
      var m :| 0 <= m < |results| && Yields(row, results[m], NS_PRIVILEGE_LEVEL_1, i, w);
      ResultYields(cfg, ioctls, script, row, m, i, w);
    }
    if SomeAdmittedReading(cfg, ioctls, script, row, i, w) {
      var n: nat :| n < |ioctls| && AdmittedReading(cfg, ioctls, script, row, n, i, w);
      OriginsComplete(script, |ioctls|, Origin(n, i));
      var m :| 0 <= m < |origins| && origins[m] == Origin(n, i);
      ResultYields(cfg, ioctls, script, row, m, i, w);
    }
  }

  lemma {:induction false} KernelLevel(cfg: Config, ioctls: seq<UsedIoctl>, script: seq<Step>, row: HeapRow, cpu: nat,
      w: nat)
    requires Scripted(ioctls, script)
    ensures !SomeYields(row, ResultsAfter(cfg, ioctls, script, |ioctls|), NS_PRIVILEGE_LEVEL_0, cpu, w)
  {
    hide ResultsAfter, RowAnswers, FieldBits, RawValue, SlotsAfter;
    ResultOrigins(cfg, ioctls, script, |ioctls|);
  }

  // ----- user-mode readings -----

  /** User-mode read `k` is of the row's register, runs a working reader without a fault, and decodes
      to `w`. */
  ghost predicate UserReading(cfg: Config, ioctls: seq<UsedIoctl>, script: seq<UserEvent>, row: HeapRow, k: nat, w: nat)
    requires |script| == |ioctls| && k < |ioctls|
  {
    && ioctls[k].registerUid == row.registerUid && HasReader(cfg.funcTable, row.registerUid)
    && Supported(EntryFor(cfg.funcTable, row.registerUid)) && !script[k].faults
    && w == FieldBits(row, JoinedWords(EntryFor(cfg.funcTable, row.registerUid), cfg.aarch64, script[k].words))
  }

  ghost predicate SomeUserReading(cfg: Config, ioctls: seq<UsedIoctl>, script: seq<UserEvent>, row: HeapRow, w: nat)
    requires |script| == |ioctls|
  {
    exists k :: 0 <= k < |ioctls| && UserReading(cfg, ioctls, script, row, k, w)
  }

  lemma {:induction false} UserResultYields(cfg: Config, x: UsedIoctl, ev: UserEvent, row: HeapRow, w: nat)
    requires HasReader(cfg.funcTable, x.registerUid)
    ensures var e := EntryFor(cfg.funcTable, x.registerUid);
            Yields(row, UserResult(x, e, cfg.aarch64, ev), NS_PRIVILEGE_LEVEL_0, 0, w)
            <==> x.registerUid == row.registerUid && Supported(e) && !ev.faults
                 && w == FieldBits(row, JoinedWords(e, cfg.aarch64, ev.words))
  {
    hide HasReader, EntryFor, Stored64, Stored1, Stored2, ValueToLong, RawValue, FieldBits, Supported;
    hide ImplFromMidr, ArchFromMidr, MscodePart;
    ValueIsRaw(UserResult(x, EntryFor(cfg.funcTable, x.registerUid), cfg.aarch64, ev));
  }

  lemma {:induction false} UserYields(cfg: Config, ioctls: seq<UsedIoctl>, script: seq<UserEvent>, row: HeapRow, w: nat)
    requires |script| == |ioctls|
    ensures SomeYields(row, UserResults(cfg.funcTable, cfg.aarch64, ioctls, script, |ioctls|),
                       NS_PRIVILEGE_LEVEL_0, 0, w)
       <==> SomeUserReading(cfg, ioctls, script, row, w)
  {
    hide UserResults, HasReader, EntryFor, Yields, UserResult, Supported, FieldBits, JoinedWords;
    var results := UserResults(cfg.funcTable, cfg.aarch64, ioctls, script, |ioctls|);
    if SomeYields(row, results, NS_PRIVILEGE_LEVEL_0, 0, w) {
      var m :| 0 <= m < |results| && Yields(row, results[m], NS_PRIVILEGE_LEVEL_0, 0, w);
      UserResultsExact(cfg.funcTable, cfg.aarch64, ioctls, script, |ioctls|, results[m]);
      var k :| 0 <= k < |ioctls| && HasReader(cfg.funcTable, ioctls[k].registerUid)
               && results[m] == UserResult(ioctls[k], EntryFor(cfg.funcTable, ioctls[k].registerUid), cfg.aarch64,
                                           script[k]);
      UserResultYields(cfg, ioctls[k], script[k], row, w);
      assert UserReading(cfg, ioctls, script, row, k, w);
    }
    if SomeUserReading(cfg, ioctls, script, row, w) {
      var k :| 0 <= k < |ioctls| && UserReading(cfg, ioctls, script, row, k, w);
      UserResultYields(cfg, ioctls[k], script[k], row, w);
      var r := UserResult(ioctls[k], EntryFor(cfg.funcTable, ioctls[k].registerUid), cfg.aarch64, script[k]);
      UserResultsExact(cfg.funcTable, cfg.aarch64, ioctls, script, |ioctls|, r);
    }
  }

  lemma {:induction false} UserLevel(cfg: Config, ioctls: seq<UsedIoctl>, script: seq<UserEvent>, row: HeapRow,
      cpu: nat, w: nat)
    requires |script| == |ioctls|
    ensures !SomeYields(row, UserResults(cfg.funcTable, cfg.aarch64, ioctls, script, |ioctls|),
                        NS_PRIVILEGE_LEVEL_1, cpu, w)
  {
    hide UserResults, RowAnswers, FieldBits, RawValue, HasReader, EntryFor;
    UserResultOrigins(cfg.funcTable, cfg.aarch64, ioctls, script, |ioctls|);
  }

  // ----- a live query -----

  /** A live parsed query shows a matched row with value `w`, as a kernel success on CPU `i`, exactly when
      a delivered read of its register succeeded on that CPU, found a MIDR there that opens the gate
      for the row's part, and decodes to `w`; and as a user-mode success exactly when a user-mode read
      of its register succeeded and decodes to `w`. */
  lemma {:induction false} ValuesShown(rows: seq<HeapRow>, cfg: Config, info: MatchInfo, env: Environment,
      before: seq<Populated>, c: nat, i: nat, w: nat)
    requires ShiftsInWord(rows) && UidsDistinct(rows) && Covers(env, Matches(rows, info, |rows|))
    requires info.supplied == 0 && info.noparse != 1 && Found(rows, cfg, info, env, before).Finished?
    requires c < |rows| && Matched(rows, info, c) && i < MS_MAX_CPUS
    ensures |Found(rows, cfg, info, env, before).shown| >= |before|
    ensures var added := Found(rows, cfg, info, env, before).shown[|before|..];
            ShowsValue(added, rows[c].uid, NS_PRIVILEGE_LEVEL_1, i, w)
            <==> SomeAdmittedReading(cfg, KernelTodo(Matches(rows, info, |rows|)), env.kernel, rows[c], i, w)
    ensures var added := Found(rows, cfg, info, env, before).shown[|before|..];
            ShowsValue(added, rows[c].uid, NS_PRIVILEGE_LEVEL_0, 0, w)
            <==> SomeUserReading(cfg, UserTodo(Matches(rows, info, |rows|)), env.user, rows[c], w)
  {
    hide Matches, Matched, UidsDistinct, ShiftsInWord, Found, ForResults, ShowsValue, SomeYields, QueryInRange;
    hide ResultsAfter, UserResults, KernelTodo, UserTodo, SomeAdmittedReading, SomeUserReading;
    var reqs, row := Matches(rows, info, |rows|), rows[c];
    var kernel := ResultsAfter(cfg, KernelTodo(reqs), env.kernel, |KernelTodo(reqs)|);
    var user := UserResults(cfg.funcTable, cfg.aarch64, UserTodo(reqs), env.user, |UserTodo(reqs)|);
    var results := RawResults(cfg, reqs, env);
    LiveQueryExact(rows, cfg, info, env, before);
    assert Found(rows, cfg, info, env, before).shown[|before|..] == ForResults(rows, results, reqs, true, |results|);
    ValueFromResult(rows, results, info, c, NS_PRIVILEGE_LEVEL_1, i, w);
    ValueFromResult(rows, results, info, c, NS_PRIVILEGE_LEVEL_0, 0, w);
    SomeYieldsConcat(row, kernel, user, NS_PRIVILEGE_LEVEL_1, i, w);
    SomeYieldsConcat(row, kernel, user, NS_PRIVILEGE_LEVEL_0, 0, w);
    KernelYields(cfg, KernelTodo(reqs), env.kernel, row, i, w);
    KernelLevel(cfg, KernelTodo(reqs), env.kernel, row, 0, w);
    UserYields(cfg, UserTodo(reqs), env.user, row, w);
    UserLevel(cfg, UserTodo(reqs), env.user, row, i, w);
  }
}
