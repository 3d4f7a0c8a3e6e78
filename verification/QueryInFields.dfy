/** Queries in the fields of table rows, raw results and the question asked: what they search, read, show
    and leave out, without the words that the other modules define for it. */
module QueryInFields {
  import opened Bits
  import opened Parse
  import opened Decode
  import opened Tables
  import opened Lookup
  import opened Routing
  import opened Join
  import opened JoinSpec
  import opened FuncTable
  import opened KernelEngine
  import opened KernelRun
  import opened KernelSafety
  import opened UserEngine
  import opened Query
  import opened ShownRows

  // ----- parsed output -----

  /** The values of CPUs: when a delivered read of a matched row's register, through a coprocessor reader,
      succeeds on CPU `i`, and the MIDR read with it is that of a Cortex-A7, A9 or A15 and the row is of
      ARMv7-A or of this implementation, or that of a Cortex-A53 or A57 and the row is of ARMv8-A or of
      this implementation, then the query shows the row with the bits of the words read. */
  lemma {:induction false} CpuRowShown(rows: seq<HeapRow>, cfg: Config, info: MatchInfo, env: Environment,
      before: seq<Populated>, c: nat, n: nat, i: nat)
    requires ShiftsInWord(rows) && UidsDistinct(rows) && Covers(env, Matches(rows, info, |rows|))
    requires info.supplied == 0 && info.noparse != 1 && Found(rows, cfg, info, env, before).Finished?
    requires c < |rows| && Matched(rows, info, c) && i < MS_MAX_CPUS
    requires n < |KernelTodo(Matches(rows, info, |rows|))| && Delivered(env.kernel[n])
    requires KernelTodo(Matches(rows, info, |rows|))[n].registerUid == rows[c].registerUid
    requires SucceedsAt(cfg, KernelTodo(Matches(rows, info, |rows|))[n], env.kernel[n].cpus, i)
    requires ReaderOfRead(cfg, KernelTodo(Matches(rows, info, |rows|))[n]).reader.Coprocessor?
    requires var x := KernelTodo(Matches(rows, info, |rows|))[n];
             var ppn := LastRun(cfg, x.cpu, env.kernel[n].cpus, i).ev.midr / 16 % 4096;
             var part := MscodePart(rows[c].uid);
             || (ppn == 0xC07 && (part == 0 || part == 2)) || (ppn == 0xC09 && (part == 0 || part == 3))
             || (ppn == 0xC0F && (part == 0 || part == 4)) || (ppn == 0xD03 && (part == 1 || part == 5))
             || (ppn == 0xD07 && (part == 1 || part == 6))
    ensures |Found(rows, cfg, info, env, before).shown| >= |before|
    ensures var x := KernelTodo(Matches(rows, info, |rows|))[n];
            var v := JoinedWords(ReaderOfRead(cfg, x).reader.entry, cfg.aarch64,
                                 LastRun(cfg, x.cpu, env.kernel[n].cpus, i).ev.words);
            ShowsValue(Found(rows, cfg, info, env, before).shown[|before|..], rows[c].uid, NS_PRIVILEGE_LEVEL_1, i,
                       if rows[c].mask <= 64 then v / Pow2(rows[c].rightshift) % Pow2(rows[c].mask) else 0)
  {
    hide Matches, Matched, UidsDistinct, ShiftsInWord, Found, KernelTodo, UserTodo, ShowsValue, MscodePart, LastRun;
    hide ReaderOfRead, PendingAt, JoinedWords, Pow2, Gate, Delivered, SomeUserReading;
    var todo := KernelTodo(Matches(rows, info, |rows|));
    var w := FieldBits(rows[c], JoinedValue(cfg, ReaderOfRead(cfg, todo[n]).reader,
                                            LastRun(cfg, todo[n].cpu, env.kernel[n].cpus, i).ev));
    MidrOfSuccess(cfg, todo, env.kernel, n, i);
    GateExactly(LastMidr(cfg, todo, env.kernel, n + 1, i), MscodePart(rows[c].uid));
    assert AdmittedReading(cfg, todo, env.kernel, rows[c], n, i, w);
    ValuesShown(rows, cfg, info, env, before, c, i, w);
  }

  lemma MidrOfSuccess(cfg: Config, ioctls: seq<UsedIoctl>, script: seq<Step>, n: nat, i: nat)
    requires Scripted(ioctls, script) && n < |ioctls| && i < MS_MAX_CPUS && Delivered(script[n])
    requires SucceedsAt(cfg, ioctls[n], script[n].cpus, i) && ReaderOfRead(cfg, ioctls[n]).reader.Coprocessor?
    ensures LastMidr(cfg, ioctls, script, n + 1, i) == LastRun(cfg, ioctls[n].cpu, script[n].cpus, i).ev.midr
  {
    hide ReaderOfRead, LastRun, PendingAt;
  }

  /** Every row that a live parsed query adds, in the fields of a matched table row and of the raw result
      that it is decoded from. */
  lemma {:induction false} LiveRowInFields(rows: seq<HeapRow>, cfg: Config, info: MatchInfo, env: Environment,
      before: seq<Populated>, k: nat) returns (c: nat, m: nat)
    requires ShiftsInWord(rows) && UidsDistinct(rows) && Covers(env, Matches(rows, info, |rows|))
    requires info.supplied == 0 && info.noparse != 1 && Found(rows, cfg, info, env, before).Finished?
    requires |before| <= k < |Found(rows, cfg, info, env, before).shown|
    ensures var results := RawResults(cfg, Matches(rows, info, |rows|), env);
            && c < |rows| && Matched(rows, info, c) && m < |results| && RowAnswers(rows[c], results[m])
            && var p, row, r := Found(rows, cfg, info, env, before).shown[k], rows[c], results[m];
               && p.uid == row.uid && p.ioctl == row.registerUid == r.registerUid
               && p.bitfield == row.bitfield && p.functionalGroup == row.functionalGroup
               && p.registerName == row.registerName && p.description == row.description
               && p.cpu == r.cpu && p.epl == r.epl && p.midr == r.midr && p.status == r.status
               && p.value == if row.mask <= 64 then RawValue(r) / Pow2(row.rightshift) % Pow2(row.mask) else 0
  {
    hide Matches, Matched, UidsDistinct, ShiftsInWord, Found, ForResults, RawResults, QueryInRange, Gate, RawValue;
    hide MscodePart, Pow2;
    var results := RawResults(cfg, Matches(rows, info, |rows|), env);
    LiveQueryExact(rows, cfg, info, env, before);
    var p := Found(rows, cfg, info, env, before).shown[k];
    ComprehensionSource(rows, results, info, true, p);
    c, m :| IsShownAs(rows, results, info, true, p, c, m);
    ShownInFields(rows, results, info, true, p, c, m);
  }

  // ----- unparsed output -----

  /** The row has the key of the answered pair of table row `c` and result `m`. */
  ghost predicate HasKeyOf(p: Populated, r: IoctlResult) {
    p.ioctl == r.registerUid && p.cpu == r.cpu && p.status == r.status
  }

  ghost predicate AnsweredBy(rows: seq<HeapRow>, info: MatchInfo, r: IoctlResult, c: nat)
    requires c < |rows|
  {
    Matched(rows, info, c) && RowAnswers(rows[c], r)
  }

  /** A row that is the first with its key in the comprehension is of the first result with the key. */
  lemma {:induction false} FirstResultWithKey(rows: seq<HeapRow>, results: seq<IoctlResult>, reqs: seq<Request>, n: nat,
      p: Populated) returns (m: nat)
    requires n <= |results| && FirstWithKey(ForResults(rows, results, reqs, false, n), p)
    ensures m < n && p in ForRequests(rows, results[m], reqs, false, |reqs|)
    ensures !KeySeen(ForResults(rows, results, reqs, false, m), p)
  {
    hide ForRequests;
    if n == 0 {
      assert false;
    }
    var a := ForResults(rows, results, reqs, false, n - 1);
    var b := ForRequests(rows, results[n - 1], reqs, false, |reqs|);
    var at :| 0 <= at < |a + b| && (a + b)[at] == p && forall l :: 0 <= l < at ==> !SameKey((a + b)[l], p);
    if at < |a| {
      assert a[at] == p && forall l :: 0 <= l < at ==> !SameKey(a[l], p) by {
        assert forall l :: 0 <= l < at ==> a[l] == (a + b)[l];
      }
      m := FirstResultWithKey(rows, results, reqs, n - 1, p);
    } else {
      m := n - 1;
      assert b[at - |a|] == p;
      assert forall l :: 0 <= l < |a| ==> a[l] == (a + b)[l];
    }
  }

  lemma {:induction false} ForResultsPrefix(rows: seq<HeapRow>, results: seq<IoctlResult>, reqs: seq<Request>, n: nat,
      m: nat)
    requires m <= n <= |results|
    ensures ForResults(rows, results[..n], reqs, false, m) == ForResults(rows, results, reqs, false, m)
  {
    hide ForRequests;
    if m > 0 {
      ForResultsPrefix(rows, results, reqs, n, m - 1);
    }
  }

  /** An answered pair has its key in the comprehension. */
  lemma {:induction false} AnsweredKeySeen(rows: seq<HeapRow>, results: seq<IoctlResult>, info: MatchInfo, n: nat,
      c: nat, m: nat, p: Populated)
    requires UidsDistinct(rows) && n <= |results| && m < n && c < |rows| && AnsweredBy(rows, info, results[m], c)
    requires HasKeyOf(p, results[m])
    ensures KeySeen(ForResults(rows, results, Matches(rows, info, |rows|), false, n), p)
  {
    hide Matches, Matched, UidsDistinct, ForResults, RowAnswers, RawValue;
    ForResultsPrefix(rows, results, Matches(rows, info, |rows|), n, n);
    var x := Undecoded(rows, c, results[m]);
    assert results[..n][m] == results[m];
    MatchedRowShown(rows, results[..n], info, false, c, x);
    var pairs := ForResults(rows, results, Matches(rows, info, |rows|), false, n);
    var at :| 0 <= at < |pairs| && pairs[at] == x;
    assert SameKey(pairs[at], p) by { AnsweredRegister(rows, info, results[m], c); }
  }

  lemma AnsweredRegister(rows: seq<HeapRow>, info: MatchInfo, r: IoctlResult, c: nat)
    requires c < |rows| && AnsweredBy(rows, info, r, c)
    ensures r.registerUid == rows[c].registerUid
  {
    hide Matched, Gate;
  }

  /** Live unparsed output in fields, on an empty list: two shown rows differ in register, CPU or status, and
      every answered register, CPU and status is shown. */
  lemma {:induction false} UnparsedInFields(rows: seq<HeapRow>, cfg: Config, info: MatchInfo, env: Environment)
    requires ShiftsInWord(rows) && UidsDistinct(rows) && Covers(env, Matches(rows, info, |rows|))
    requires info.supplied == 0 && info.noparse == 1 && Found(rows, cfg, info, env, []).Finished?
    ensures var shown := Found(rows, cfg, info, env, []).shown;
            forall k, l :: 0 <= k < l < |shown| ==>
              shown[k].ioctl != shown[l].ioctl || shown[k].cpu != shown[l].cpu || shown[k].status != shown[l].status
    ensures var shown := Found(rows, cfg, info, env, []).shown;
            var results := RawResults(cfg, Matches(rows, info, |rows|), env);
            forall c: nat, m: nat :: c < |rows| && m < |results| && AnsweredBy(rows, info, results[m], c) ==>
              exists k :: 0 <= k < |shown| && shown[k].ioctl == results[m].registerUid
                          && shown[k].cpu == results[m].cpu && shown[k].status == results[m].status
  {
    hide Matches, UidsDistinct, ShiftsInWord, Found, RawResults, QueryInRange, ForResults, AnsweredBy, RowIsTrue;
    LiveUnparsedQueryExact(rows, cfg, info, env);
    var shown, results := Found(rows, cfg, info, env, []).shown, RawResults(cfg, Matches(rows, info, |rows|), env);
    forall c: nat, m: nat | c < |rows| && m < |results| && AnsweredBy(rows, info, results[m], c)
      ensures exists k :: 0 <= k < |shown| && shown[k].ioctl == results[m].registerUid
                          && shown[k].cpu == results[m].cpu && shown[k].status == results[m].status
    {
      var r := results[m];
      var p := Populated(0, r.registerUid, 0, 0, r.cpu, 0, 0, r.status, Label(""), Label(""), Label(""), Label(""));
      AnsweredKeySeen(rows, results, info, |results|, c, m, p);
      assert KeySeen(shown, p);
    }
  }

  /** Every row of it is the whole value of an answered pair, in the fields of table row and raw result, and
      no result before that one answers with the same register, CPU and status. */
  lemma {:induction false} UnparsedRowInFields(rows: seq<HeapRow>, cfg: Config, info: MatchInfo, env: Environment,
      k: nat) returns (c: nat, m: nat)
    requires ShiftsInWord(rows) && UidsDistinct(rows) && Covers(env, Matches(rows, info, |rows|))
    requires info.supplied == 0 && info.noparse == 1 && Found(rows, cfg, info, env, []).Finished?
    requires k < |Found(rows, cfg, info, env, []).shown|
    ensures var results := RawResults(cfg, Matches(rows, info, |rows|), env);
            && c < |rows| && Matched(rows, info, c) && m < |results| && RowAnswers(rows[c], results[m])
            && var p, row, r := Found(rows, cfg, info, env, []).shown[k], rows[c], results[m];
               && p.uid == row.uid && p.ioctl == row.registerUid == r.registerUid && p.value == RawValue(r)
               && p.cpu == r.cpu && p.epl == r.epl && p.midr == r.midr && p.status == r.status
               && p.functionalGroup == row.functionalGroup && p.registerName == row.registerName
               && p.bitfield == Label("Unparsed") && p.description == Label("None")
               && forall a: nat, b: nat :: a < |rows| && b < m && AnsweredBy(rows, info, results[b], a) ==>
                    !(results[b].registerUid == r.registerUid && results[b].cpu == r.cpu
                      && results[b].status == r.status)
  {
    hide Matches, Matched, UidsDistinct, ShiftsInWord, Found, RawResults, QueryInRange, ForResults, ForRequests, Gate;
    hide RowIsTrue, KeysDistinct, FirstWithKey, MscodePart, RawValue, AnsweredBy;
    LiveUnparsedQueryExact(rows, cfg, info, env);
    var reqs := Matches(rows, info, |rows|);
    var results, p := RawResults(cfg, reqs, env), Found(rows, cfg, info, env, []).shown[k];
    m := FirstResultWithKey(rows, results, reqs, |results|, p);
    SingleResult(rows, results[m], reqs, p);
    ComprehensionSource(rows, [results[m]], info, false, p);
    var one: nat;
    c, one :| IsShownAs(rows, [results[m]], info, false, p, c, one);
    ShownInFields(rows, [results[m]], info, false, p, c, one);
    forall a: nat, b: nat | a < |rows| && b < m && AnsweredBy(rows, info, results[b], a)
      ensures !HasKeyOf(p, results[b])
    {
      if HasKeyOf(p, results[b]) {
        AnsweredKeySeen(rows, results, info, m, a, b, p);
      }
    }
  }

  lemma SingleResult(rows: seq<HeapRow>, r: IoctlResult, reqs: seq<Request>, p: Populated)
    requires p in ForRequests(rows, r, reqs, false, |reqs|)
    ensures p in ForResults(rows, [r], reqs, false, |[r]|)
  {
    hide ForRequests;
    assert ForResults(rows, [r], reqs, false, 0) == [];
  }

  // ----- which registers are read -----

  /** The level that a query reads a row at: the row's preferred one, or the one asked for. */
  ghost function AskedLevel(row: HeapRow, info: MatchInfo): u32 {
    if info.pl / 32 % 2 == 1 then row.ppl else info.pl
  }

  lemma RequestLevel(q: Request, row: HeapRow, info: MatchInfo)
    requires q.ppl == row.ppl && q.pl == info.pl
    ensures EffectiveLevel(q) == AskedLevel(row, info)
    ensures ToKernel(q) <==> AskedLevel(row, info) / 2 % 2 == 1
    ensures ToUser(q) <==> AskedLevel(row, info) % 2 == 1
  {
    hide EffectiveLevel, ToKernel, ToUser, Shr, Low;
    LevelsAreBits(q);
    Pow2Values();
    ShiftIsDivision(q.pl, 5);
    ShiftIsDivision(EffectiveLevel(q), 1);
    ShiftIsDivision(EffectiveLevel(q), 0);
  }

  /** Matched row `c` is the first matched row of its register whose level has kernel or user mode. */
  ghost predicate FirstWithLevel(rows: seq<HeapRow>, info: MatchInfo, c: nat)
    requires c < |rows|
  {
    && Matched(rows, info, c) && HasLevel(rows[c], info)
    && forall b :: 0 <= b < c && Matched(rows, info, b) && rows[b].registerUid == rows[c].registerUid ==>
         !HasLevel(rows[b], info)
  }

  ghost predicate HasLevel(row: HeapRow, info: MatchInfo) {
    AskedLevel(row, info) % 2 == 1 || AskedLevel(row, info) / 2 % 2 == 1
  }

  lemma {:induction false} RequestFacts(rows: seq<HeapRow>, info: MatchInfo, m: nat)
    requires m < |Matches(rows, info, |rows|)| == |MatchIndices(rows, info, |rows|)|
    ensures var q, c := Matches(rows, info, |rows|)[m], MatchIndices(rows, info, |rows|)[m];
            && Matched(rows, info, c) && q.registerUid == rows[c].registerUid
            && q == RequestFor(rows[c], info)
            && (ToKernel(q) <==> AskedLevel(rows[c], info) / 2 % 2 == 1)
            && (ToUser(q) <==> AskedLevel(rows[c], info) % 2 == 1)
  {
    hide Matches, MatchIndices, Named, Admitted, ToKernel, ToUser, MscodePart, AskedLevel;
    RequestsInFields(rows, info, m);
    MatchesAtIndices(rows, info, |rows|);
    MatchesExact(rows, info, |rows|);
    assert MatchIndices(rows, info, |rows|)[m] in MatchIndices(rows, info, |rows|);
    RequestLevel(Matches(rows, info, |rows|)[m], rows[MatchIndices(rows, info, |rows|)[m]], info);
  }

  lemma {:induction false} FirstRoutableRow(rows: seq<HeapRow>, info: MatchInfo, m: nat)
    requires m < |Matches(rows, info, |rows|)| == |MatchIndices(rows, info, |rows|)|
    ensures FirstRoutable(Matches(rows, info, |rows|), m)
       <==> FirstWithLevel(rows, info, MatchIndices(rows, info, |rows|)[m])
  {
    hide Matches, MatchIndices, Matched, ToKernel, ToUser, AskedLevel, MscodePart;
    var reqs, indices := Matches(rows, info, |rows|), MatchIndices(rows, info, |rows|);
    MatchesAscend(rows, info, |rows|);
    MatchesExact(rows, info, |rows|);
    forall j | 0 <= j < |reqs|
      ensures Matched(rows, info, indices[j]) && reqs[j].registerUid == rows[indices[j]].registerUid
      ensures Routable(reqs[j]) <==> HasLevel(rows[indices[j]], info)
    {
      RequestFacts(rows, info, j);
    }
    forall b | 0 <= b < |rows| && Matched(rows, info, b)
      ensures exists j :: 0 <= j < |reqs| && indices[j] == b
    {
      MatchedIsReturned(rows, info, b);
    }
  }

  lemma MatchedIsReturned(rows: seq<HeapRow>, info: MatchInfo, b: nat)
    requires b < |rows| && Matched(rows, info, b)
    ensures b in MatchIndices(rows, info, |rows|)
  {
    hide Named, Admitted, MatchIndices;
    MatchesExact(rows, info, |rows|);
  }

  /** The reads of a query in the fields of rows and query: the kernel reads, for the CPU asked for, the
      registers of those matched rows that are the first of their register with any level, and whose
      level has bit 1; user mode those whose level has bit 0. So with preferred levels that agree within
      a register, its level decides. */
  lemma {:induction false} ReadsInFields(rows: seq<HeapRow>, info: MatchInfo, x: UsedIoctl)
    ensures x in KernelTodo(Matches(rows, info, |rows|))
       <==> exists c :: 0 <= c < |rows| && FirstWithLevel(rows, info, c) && AskedLevel(rows[c], info) / 2 % 2 == 1
                        && x == UsedIoctl(rows[c].registerUid, info.cpu, MscodePart(rows[c].uid))
    ensures x in UserTodo(Matches(rows, info, |rows|))
       <==> exists c :: 0 <= c < |rows| && FirstWithLevel(rows, info, c) && AskedLevel(rows[c], info) % 2 == 1
                        && x == UsedIoctl(rows[c].registerUid, info.cpu, MscodePart(rows[c].uid))
  {
    hide Matches, MatchIndices, Matched, ToKernel, ToUser, AskedLevel, MscodePart, FirstRoutable, KernelReads;
    hide UserReads, Kept, FirstWithLevel;
    var reqs, indices := Matches(rows, info, |rows|), MatchIndices(rows, info, |rows|);
    KernelReadsExact(reqs, |reqs|, x);
    UserReadsExact(reqs, |reqs|, x);
    MatchesAtIndices(rows, info, |rows|);
    forall m | 0 <= m < |reqs|
      ensures FirstRoutable(reqs, m) <==> FirstWithLevel(rows, info, indices[m])
      ensures IoctlFor(reqs[m]) == UsedIoctl(rows[indices[m]].registerUid, info.cpu, MscodePart(rows[indices[m]].uid))
      ensures ToKernel(reqs[m]) <==> AskedLevel(rows[indices[m]], info) / 2 % 2 == 1
      ensures ToUser(reqs[m]) <==> AskedLevel(rows[indices[m]], info) % 2 == 1
    {
      RequestFacts(rows, info, m);
      FirstRoutableRow(rows, info, m);
    }
    forall c | 0 <= c < |rows| && FirstWithLevel(rows, info, c)
      ensures exists m :: 0 <= m < |reqs| && indices[m] == c
    {
      LevelRowIsReturned(rows, info, c);
    }
  }

  lemma LevelRowIsReturned(rows: seq<HeapRow>, info: MatchInfo, c: nat)
    requires c < |rows| && FirstWithLevel(rows, info, c)
    ensures c in MatchIndices(rows, info, |rows|)
  {
    MatchedIsReturned(rows, info, c);
  }

  lemma {:induction false} FirstWithLevelExists(rows: seq<HeapRow>, info: MatchInfo, c: nat) returns (b: nat)
    requires c < |rows| && Matched(rows, info, c) && HasLevel(rows[c], info)
    ensures b <= c && rows[b].registerUid == rows[c].registerUid && FirstWithLevel(rows, info, b)
  {
    hide Matched, HasLevel;
    if a: nat :| a < c && Matched(rows, info, a) && rows[a].registerUid == rows[c].registerUid
                 && HasLevel(rows[a], info)
    {
      b := FirstWithLevelExists(rows, info, a);
    } else {
      b := c;
    }
  }

  /** At preferred levels, when the matched rows of a register prefer the same: the kernel reads the register
      exactly when bit 1 of the rows' level is set, and user mode exactly when bit 0 is. */
  lemma {:induction false} PreferredLevelDecides(rows: seq<HeapRow>, info: MatchInfo, c: nat)
    requires info.pl / 32 % 2 == 1 && c < |rows| && Matched(rows, info, c)
    requires forall b :: 0 <= b < |rows| && Matched(rows, info, b) && rows[b].registerUid == rows[c].registerUid ==>
               rows[b].ppl == rows[c].ppl
    ensures (exists x :: x in KernelTodo(Matches(rows, info, |rows|)) && x.registerUid == rows[c].registerUid)
       <==> rows[c].ppl / 2 % 2 == 1
    ensures (exists x :: x in UserTodo(Matches(rows, info, |rows|)) && x.registerUid == rows[c].registerUid)
       <==> rows[c].ppl % 2 == 1
  {
    hide Matches, Matched, KernelTodo, UserTodo, MscodePart;
    var kernel, user := KernelTodo(Matches(rows, info, |rows|)), UserTodo(Matches(rows, info, |rows|));
    forall x: UsedIoctl | x in kernel && x.registerUid == rows[c].registerUid
      ensures rows[c].ppl / 2 % 2 == 1
    {
      ReadsInFields(rows, info, x);
    }
    forall x: UsedIoctl | x in user && x.registerUid == rows[c].registerUid
      ensures rows[c].ppl % 2 == 1
    {
      ReadsInFields(rows, info, x);
    }
    if HasLevel(rows[c], info) {
      var b := FirstWithLevelExists(rows, info, c);
      var x := UsedIoctl(rows[b].registerUid, info.cpu, MscodePart(rows[b].uid));
      ReadsInFields(rows, info, x);
    }
  }

  // ----- a supplied value -----

  lemma {:induction false} DecodedMatchAt(rows: seq<HeapRow>, info: MatchInfo, r: IoctlResult, n: nat)
    requires n <= |rows|
    ensures |DecodedMatches(rows, info, r, n)| == |MatchIndices(rows, info, n)|
    ensures forall m :: 0 <= m < |MatchIndices(rows, info, n)| ==>
              DecodedMatches(rows, info, r, n)[m] == Decoded(rows, MatchIndices(rows, info, n)[m], r)
  {
    hide Named, Admitted, Decoded;
    if n > 0 {
      DecodedMatchAt(rows, info, r, n - 1);
    }
  }

  /** Decoding a supplied value, in the fields of rows and query. When the matched rows are all of one register
      the query succeeds and adds one row for each, in table order: a success on CPU 0 without level or
      MIDR, of that register, under the names of the table row, with the row's bits of the supplied
      value. Otherwise it fails and adds nothing. */
  lemma {:induction false} SuppliedInFields(rows: seq<HeapRow>, cfg: Config, info: MatchInfo, env: Environment,
      before: seq<Populated>)
    requires ShiftsInWord(rows) && UidsDistinct(rows) && info.supplied != 0 && info.noparse != 1
    ensures var indices := MatchIndices(rows, info, |rows|);
            var one := indices != []
                       && forall m :: 0 <= m < |indices| ==>
                            rows[indices[m]].registerUid == rows[indices[0]].registerUid;
            var found := Found(rows, cfg, info, env, before);
            && (!one ==> found == Finished(-1, before))
            && (one ==> found.Finished? && found.result == 0 && |found.shown| == |before| + |indices|
                        && found.shown[..|before|] == before)
            && (one ==> forall m :: 0 <= m < |indices| ==>
                  var p, row := found.shown[|before| + m], rows[indices[m]];
                  && p.status == Success && p.cpu == 0 && p.epl == 0 && p.midr == 0
                  && p.uid == row.uid && p.ioctl == row.registerUid
                  && p.bitfield == row.bitfield && p.functionalGroup == row.functionalGroup
                  && p.registerName == row.registerName && p.description == row.description
                  && p.value == if row.mask <= 64 then info.calcValue / Pow2(row.rightshift) % Pow2(row.mask) else 0)
  {
    hide Matches, MatchIndices, UidsDistinct, ShiftsInWord, Found, DecodedMatches, OneRegister, Pow2;
    SuppliedValueExact(rows, cfg, info, env, before);
    MatchesAtIndices(rows, info, |rows|);
    var reqs, indices := Matches(rows, info, |rows|), MatchIndices(rows, info, |rows|);
    if OneRegister(reqs) {
      var r := Supplied(reqs[0].registerUid, info.calcValue);
      DecodedMatchAt(rows, info, r, |rows|);
      forall m | 0 <= m < |indices|
        ensures Found(rows, cfg, info, env, before).shown[|before| + m] == Decoded(rows, indices[m], r)
      {
      }
    }
  }
}
