/** A whole search as the library offers it: expand the tables, run the query, and hand the results over;
    and what this shows for tables in the documented form. */
module Find {
  import opened Bits
  import opened Parse
  import opened Support
  import opened Tables
  import opened Lookup
  import opened Join
  import opened JoinSpec
  import opened FuncTable
  import opened KernelEngine
  import opened KernelRun
  import opened UserEngine
  import opened Query
  import opened ShownRows
  import opened Results

  ghost predicate TableShiftsInWord(tables: seq<Table>) {
    forall i, j :: 0 <= i < |tables| && 0 <= j < |tables[i].rows| ==> tables[i].rows[j].rightshift < 64
  }

  /** Tables in the documented form that fit the 16-bit numbers. */
  ghost predicate WellFormed(tables: seq<Table>, includeDevices: int) {
    Documented(tables, includeDevices) && Allocation(tables, 0) <= 0x1_0000 && TableShiftsInWord(tables)
  }

  lemma {:induction false} ExpansionServesQueries(tables: seq<Table>, includeDevices: int)
    requires WellFormed(tables, includeDevices)
    ensures ShiftsInWord(Expansion(tables, includeDevices)) && UidsDistinct(Expansion(tables, includeDevices))
  {
    hide Documented, Allocation, UidsDistinct, Expansion;
    ExpansionShiftsInWord(tables, includeDevices);
    DocumentedTablesHaveDistinctUids(tables, includeDevices);
  }

  /** The search in the fields of the tables: copy `k` of a row of a table in the documented form is returned
      exactly when it has the asked uid, group or name, and the table is a device's, or of the asked
      architecture, or of an implementation of it that is asked for. */
  lemma {:induction false} SearchOfTables(tables: seq<Table>, includeDevices: int, info: MatchInfo, s: Site)
    requires WellFormed(tables, includeDevices)
    requires InTables(tables, s) && s.k < Copies(tables[s.i], s.j, includeDevices)
    ensures var n := Place(tables, includeDevices, s.i, s.j) + s.k;
            var rows, t, row := Expansion(tables, includeDevices), tables[s.i], tables[s.i].rows[s.j];
            && n < |rows|
            && (n in MatchIndices(rows, info, |rows|)
                <==> && (|| rows[n].uid == info.uid || row.functionalGroup == info.functionalGroup
                         || rows[n].registerName == info.registerName)
                     && (|| t.tableType == TypeMm
                         || (t.tableType == TypeArch && t.part == info.architecture)
                         || (&& t.tableType == TypeImpl && (info.implementation == 7 || info.implementation == t.part)
                             && (|| (2 <= t.part <= 4 && info.architecture == 0)
                                 || (5 <= t.part <= 6 && info.architecture == 1)
                                 || (!(2 <= t.part <= 6) && info.architecture == 0xFFFF_FFFF)))))
  {
    hide Expansion, Place, MatchIndices, MscodePart, Mscode, Allocation, TableShiftsInWord, FieldsSeparate;
    var t, row := tables[s.i], tables[s.i].rows[s.j];
    ExpandedRow(tables, includeDevices, s);
    SearchInFields(Expansion(tables, includeDevices), info, Place(tables, includeDevices, s.i, s.j) + s.k);
    if IsSystem(t) {
      assert InWidth(t) && row in t.rows;
      CodeRoundTrip(t.part, row.registerUid, row.uid);
    }
  }

  /** The search of `ms_find_by_bitfield`, `ms_find_by_register` and `ms_find_by_group`, from tables to
      array. An empty list of results counts as a failure. */
  method FindAndFlatten(tables: seq<Table>, includeDevices: int, table: BitfieldHeap, d: Driver, u: UserSide,
      info: MatchInfo, env: Environment)
    returns (result: int, flat: array<FlatResult>, defined: bool)
    requires WellFormed(tables, includeDevices)
    requires u.illsig == 0 && u.table == d.cfg.funcTable && u.aarch64 == d.cfg.aarch64
    requires info.supplied == 0 ==>
               Covers(env, Matches(Expansion(tables, includeDevices), info, |Expansion(tables, includeDevices)|))
    modifies table, d, u
    ensures ShiftsInWord(Expansion(tables, includeDevices))
    ensures var found := Found(Expansion(tables, includeDevices), d.cfg, info, env, []);
            && (defined <==> found.Finished?)
            && (defined ==> result == if found.result == 0 && found.shown != [] then 0 else -1)
            && (defined && result == 0 ==>
                  && flat.Length == |found.shown|
                  && forall i :: 0 <= i < |found.shown| ==>
                       flat[i] == Flattened(Expansion(tables, includeDevices), found.shown[i], |found.shown|))
  {
    hide WellFormed, Expansion, Found, ShiftsInWord, UidsDistinct, Covers, Flattened, ListHead.Valid, Matches;
    ExpansionServesQueries(tables, includeDevices);
    var list := new ListHead<Populated>();
    table.ReadTablesToMemory(tables, includeDevices);
    result, defined := FindBitfields(table, d, u, info, env, list);
    flat := new FlatResult[0];
    if defined && result == 0 {
      result, flat := FlattenResults(table.heap[..table.size], list);
    }
    list.Free();
  }

  /** The added rows show of every row that the query asks for exactly the values that the admitted,
      successful reads of its register returned. */
  ghost predicate ShowsItsReadings(rows: seq<HeapRow>, cfg: Config, info: MatchInfo, env: Environment,
      added: seq<Populated>)
    requires Covers(env, Matches(rows, info, |rows|))
  {
    forall c: nat, i: nat, w: nat :: c < |rows| && i < MS_MAX_CPUS && Matched(rows, info, c) ==>
      ShowsRowReadings(rows, cfg, info, env, added, c, i, w)
  }

  ghost predicate ShowsRowReadings(rows: seq<HeapRow>, cfg: Config, info: MatchInfo, env: Environment,
      added: seq<Populated>, c: nat, i: nat, w: nat)
    requires Covers(env, Matches(rows, info, |rows|)) && c < |rows| && i < MS_MAX_CPUS
  {
    && (ShowsValue(added, rows[c].uid, NS_PRIVILEGE_LEVEL_1, i, w)
        <==> SomeAdmittedReading(cfg, KernelTodo(Matches(rows, info, |rows|)), env.kernel, rows[c], i, w))
    && (ShowsValue(added, rows[c].uid, NS_PRIVILEGE_LEVEL_0, 0, w)
        <==> SomeUserReading(cfg, UserTodo(Matches(rows, info, |rows|)), env.user, rows[c], w))
  }

  lemma {:induction false} QueryShowsItsReadings(rows: seq<HeapRow>, cfg: Config, info: MatchInfo, env: Environment)
    requires ShiftsInWord(rows) && UidsDistinct(rows) && Covers(env, Matches(rows, info, |rows|))
    requires info.supplied == 0 && info.noparse != 1 && Found(rows, cfg, info, env, []).Finished?
    ensures ShowsItsReadings(rows, cfg, info, env, Found(rows, cfg, info, env, []).shown)
  {
    hide Found, ShiftsInWord, UidsDistinct, Covers, Matches, KernelTodo, UserTodo, ShowsValue, SomeAdmittedReading;
    hide SomeUserReading, Matched;
    var shown := Found(rows, cfg, info, env, []).shown;
    assert shown[0..] == shown;
    forall c: nat, i: nat, w: nat | c < |rows| && i < MS_MAX_CPUS && Matched(rows, info, c)
      ensures ShowsRowReadings(rows, cfg, info, env, shown, c, i, w)
    {
      ValuesShown(rows, cfg, info, env, [], c, i, w);
    }
  }

  /** A live parsed query over tables in the documented form, end to end: it is the comprehension over its
      own reads, and of every row that it asks for it shows exactly the values that the admitted,
      successful reads of its register returned. */
  lemma {:induction false} DocumentedQueryExact(tables: seq<Table>, includeDevices: int, cfg: Config, info: MatchInfo,
      env: Environment)
    requires WellFormed(tables, includeDevices) && info.supplied == 0 && info.noparse != 1
    requires Covers(env, Matches(Expansion(tables, includeDevices), info, |Expansion(tables, includeDevices)|))
    ensures ShiftsInWord(Expansion(tables, includeDevices))
    ensures var rows := Expansion(tables, includeDevices);
            var reqs := Matches(rows, info, |rows|);
            Found(rows, cfg, info, env, [])
            == if QueryInRange(cfg, reqs, env) && RawResults(cfg, reqs, env) != [] then
                 Finished(0, ForResults(rows, RawResults(cfg, reqs, env), reqs, true, |RawResults(cfg, reqs, env)|))
               else Undefined
    ensures var rows := Expansion(tables, includeDevices);
            Found(rows, cfg, info, env, []).Finished? ==>
              ShowsItsReadings(rows, cfg, info, env, Found(rows, cfg, info, env, []).shown)
  {
    hide WellFormed, Expansion, Found, ShiftsInWord, UidsDistinct, Covers, Matches, ForResults, RawResults;
    hide QueryInRange, ShowsItsReadings, RowIsTrue;
    var rows := Expansion(tables, includeDevices);
    ExpansionServesQueries(tables, includeDevices);
    LiveQueryExact(rows, cfg, info, env, []);
    var added := ForResults(rows, RawResults(cfg, Matches(rows, info, |rows|), env), Matches(rows, info, |rows|), true,
                            |RawResults(cfg, Matches(rows, info, |rows|), env)|);
    assert [] + added == added;
    if Found(rows, cfg, info, env, []).Finished? {
      QueryShowsItsReadings(rows, cfg, info, env);
    }
  }
}
