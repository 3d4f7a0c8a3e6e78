/** Searches of the expanded table: uid lookup, the listings of groups and registers, and the
    table search that starts every query. */
module Lookup {
  import opened Bits
  import opened Parse
  import opened Support
  import opened Tables

  // ----- breakout_get_index -----

  /** The first index from `i` on whose row has the uid, or the number of rows. */
  ghost function IndexFrom(rows: seq<HeapRow>, uid: u32, i: nat): nat
    requires i <= |rows|
    decreases |rows| - i
  {
    if i == |rows| || rows[i].uid == uid then i else IndexFrom(rows, uid, i + 1)
  }

  ghost function IndexOf(rows: seq<HeapRow>, uid: u32): nat {
    IndexFrom(rows, uid, 0)
  }

  ghost predicate HasUid(rows: seq<HeapRow>, uid: u32) {
    exists i :: 0 <= i < |rows| && rows[i].uid == uid
  }

  lemma {:induction false} IndexFromIsFirst(rows: seq<HeapRow>, uid: u32, i: nat)
    requires i <= |rows|
    ensures i <= IndexFrom(rows, uid, i) <= |rows|
    ensures forall j :: i <= j < IndexFrom(rows, uid, i) ==> rows[j].uid != uid
    ensures IndexFrom(rows, uid, i) < |rows| ==> rows[IndexFrom(rows, uid, i)].uid == uid
    decreases |rows| - i
  {
    if i < |rows| && rows[i].uid != uid {
      IndexFromIsFirst(rows, uid, i + 1);
    }
  }

  /** `breakout_get_index`. */
  method GetIndex(rows: seq<HeapRow>, code: u32) returns (found: bool, index: nat)
    ensures found <==> HasUid(rows, code)
    ensures index == IndexOf(rows, code)
    ensures found ==> index < |rows| && rows[index].uid == code
  {
    var i := 0;
    IndexFromIsFirst(rows, code, 0);
    while i < |rows|
      invariant 0 <= i <= |rows|
      invariant forall j :: 0 <= j < i ==> rows[j].uid != code
      invariant IndexOf(rows, code) == IndexFrom(rows, code, i)
    {
      if rows[i].uid == code {
        return true, i;
      }
      i := i + 1;
    }
    return false, i;
  }

  /** Looking a row's uid up gives back that row, for every row, exactly when uids are distinct. */
  lemma LookupInverts(rows: seq<HeapRow>)
    ensures UidsDistinct(rows) <==> forall i :: 0 <= i < |rows| ==> IndexOf(rows, rows[i].uid) == i
  {
    forall i | 0 <= i < |rows|
      ensures UidsDistinct(rows) ==> IndexOf(rows, rows[i].uid) == i
    {
      IndexFromIsFirst(rows, rows[i].uid, 0);
    }
    if m, n :| 0 <= m < n < |rows| && rows[m].uid == rows[n].uid {
      assert IndexOf(rows, rows[m].uid) == IndexOf(rows, rows[n].uid);
    }
  }

  lemma IndexOfNamesUid(rows: seq<HeapRow>, uid: u32)
    ensures IndexOf(rows, uid) < |rows| ==> rows[IndexOf(rows, uid)].uid == uid
  {
    IndexFromIsFirst(rows, uid, 0);
  }

  lemma RowHasUid(rows: seq<HeapRow>, i: nat)
    requires i < |rows|
    ensures HasUid(rows, rows[i].uid)
    ensures IndexOf(rows, rows[i].uid) < |rows|
  {
    IndexFromIsFirst(rows, rows[i].uid, 0);
  }

  // ----- decoded rows -----

  /** A result row; its names are those of the first row with the uid. */
  ghost function Filled(rows: seq<HeapRow>, uid: u32, ioctl: u32, value: nat, uvalue: nat, cpu: u32,
                        epl: u32, midr: u32, status: Status): Populated
    requires IndexOf(rows, uid) < |rows|
  {
    var row := rows[IndexOf(rows, uid)];
    Populated(uid, ioctl, value, uvalue, cpu, epl, midr, status,
              row.bitfield, row.functionalGroup, row.registerName, row.description)
  }

  /** `breakout_add_bitfield_result`; every caller passes the uid of a row of the table. */
  method AddBitfieldResult(rows: seq<HeapRow>, list: ListHead<Populated>, uid: u32, ioctl: u32, value: nat,
                           uvalue: nat, cpu: u32, epl: u32, midr: u32, status: Status)
    requires list.Valid() && HasUid(rows, uid)
    modifies list, list.Nodes()
    ensures list.Valid() && fresh(list.Nodes() - old(list.Nodes()))
    ensures IndexOf(rows, uid) < |rows|
    ensures list.contents == old(list.contents)
                             + [Filled(rows, uid, ioctl, value, uvalue, cpu, epl, midr, status)]
  {
    var found, index := GetIndex(rows, uid);
    var row := rows[index];
    list.Append(Populated(uid, ioctl, value, uvalue, cpu, epl, midr, status,
                          row.bitfield, row.functionalGroup, row.registerName, row.description));
  }

  // ----- get_groups and get_registers -----

  datatype Key = ByGroup | ByRegister

  function RowKey(key: Key, row: HeapRow): Label {
    if key == ByGroup then row.functionalGroup else row.registerName
  }

  function ResultKey(key: Key, p: Populated): Label {
    if key == ByGroup then p.functionalGroup else p.registerName
  }

  /** The names in a list of results. */
  ghost function Keys(key: Key, ps: seq<Populated>): (r: seq<Label>)
    ensures |r| == |ps| && forall m :: 0 <= m < |ps| ==> r[m] == ResultKey(key, ps[m])
  {
    seq(|ps|, m requires 0 <= m < |ps| => ResultKey(key, ps[m]))
  }

  /** `get_find`. */
  method GetFind(list: ListHead<Populated>, key: Key, name: Label) returns (found: bool)
    requires list.Valid()
    ensures found <==> name in Keys(key, list.contents)
  {
    ghost var keys := Keys(key, list.contents);
    var temp := list.head;
    ghost var i := 0;
    while temp != null
      invariant 0 <= i <= |keys| && keys == Keys(key, list.contents) && temp == list.NodeAt(i)
      invariant forall k :: 0 <= k < i ==> keys[k] != name
      decreases |keys| - i
    {
      assert list.LinkedAt(i);
      if ResultKey(key, temp.data) == name {
        assert keys[i] == name;
        return true;
      }
      temp := temp.next;
      i := i + 1;
    }
    return false;
  }

  /** The result row that a listing adds for row `i`. */
  ghost function Listed(rows: seq<HeapRow>, i: nat): Populated
    requires i < |rows|
  {
    RowHasUid(rows, i);
    Filled(rows, rows[i].uid, 0, 0, 0, 0, 0, 0, Success)
  }

  /** The listing loop: one step for each row, against the names listed so far and those that were in
      the list at the start. */
  ghost function Listing(key: Key, rows: seq<HeapRow>, start: seq<Populated>, n: nat): seq<Populated>
    requires n <= |rows|
  {
    if n == 0 then start
    else
      var before := Listing(key, rows, start, n - 1);
      if RowKey(key, rows[n - 1]) in Keys(key, before) then before else before + [Listed(rows, n - 1)]
  }

  /** `get_groups` and `get_registers`. */
  method GetNames(rows: seq<HeapRow>, key: Key, list: ListHead<Populated>)
    requires list.Valid()
    modifies list, list.Nodes()
    ensures list.Valid() && fresh(list.Nodes() - old(list.Nodes()))
    ensures list.contents == Listing(key, rows, old(list.contents), |rows|)
  {
    var i := 0;
    while i < |rows|
      invariant 0 <= i <= |rows|
      invariant list.Valid() && fresh(list.Nodes() - old(list.Nodes()))
      invariant list.contents == Listing(key, rows, old(list.contents), i)
    {
      var row := rows[i];
      var found := GetFind(list, key, RowKey(key, row));
      if !found {
        RowHasUid(rows, i);
        AddBitfieldResult(rows, list, row.uid, 0, 0, 0, 0, 0, 0, Success);
      }
      i := i + 1;
    }
  }

  /** The names of the first `n` rows. */
  ghost function NamesBelow(key: Key, rows: seq<HeapRow>, n: nat): set<Label>
    requires n <= |rows|
  {
    if n == 0 then {} else NamesBelow(key, rows, n - 1) + {RowKey(key, rows[n - 1])}
  }

  lemma {:induction false} NamesBelowExact(key: Key, rows: seq<HeapRow>, n: nat, name: Label)
    requires n <= |rows|
    ensures name in NamesBelow(key, rows, n) <==> exists i :: 0 <= i < n && RowKey(key, rows[i]) == name
  {
    if n > 0 {
      NamesBelowExact(key, rows, n - 1, name);
      if RowKey(key, rows[n - 1]) != name {
        assert forall i :: 0 <= i < n && RowKey(key, rows[i]) == name ==> i < n - 1;
      }
    }
  }

  /** The indices below `n` of the rows whose name no earlier row has, ascending. */
  ghost function Firsts(key: Key, rows: seq<HeapRow>, n: nat): (r: seq<nat>)
    requires n <= |rows|
    ensures forall m :: 0 <= m < |r| ==> r[m] < n
  {
    if n == 0 then []
    else if RowKey(key, rows[n - 1]) !in NamesBelow(key, rows, n - 1) then Firsts(key, rows, n - 1) + [n - 1]
    else Firsts(key, rows, n - 1)
  }

  /** One step of the listing, in names. */
  lemma {:induction false} ListingStep(key: Key, rows: seq<HeapRow>, n: nat)
    requires 0 < n <= |rows| && UidsDistinct(rows)
    ensures var before, name := Keys(key, Listing(key, rows, [], n - 1)), RowKey(key, rows[n - 1]);
            Keys(key, Listing(key, rows, [], n)) == if name in before then before else before + [name]
  {
    hide UidsDistinct, Listed, ResultKey, RowKey;
    ListedKey(key, rows, n - 1);
    var before, name := Listing(key, rows, [], n - 1), RowKey(key, rows[n - 1]);
    if name !in Keys(key, before) {
      assert Keys(key, Listing(key, rows, [], n)) == Keys(key, before) + [name];
    }
  }

  /** The names listed so far are the names so far. */
  lemma {:induction false} ListingNames(key: Key, rows: seq<HeapRow>, n: nat, name: Label)
    requires n <= |rows| && UidsDistinct(rows)
    ensures name in Keys(key, Listing(key, rows, [], n)) <==> name in NamesBelow(key, rows, n)
  {
    hide UidsDistinct, Listing, RowKey, Keys;
    if n > 0 {
      ListingNames(key, rows, n - 1, name);
      ListingStep(key, rows, n);
    } else {
      EmptyListing(key, rows);
    }
  }

  lemma EmptyListing(key: Key, rows: seq<HeapRow>)
    ensures Keys(key, Listing(key, rows, [], 0)) == []
  {}

  /** Listing by looking names up again through their uids lists exactly the first occurrences, in
      order, each under its own name. */
  lemma {:induction false} ListingIsFirsts(key: Key, rows: seq<HeapRow>, n: nat)
    requires n <= |rows| && UidsDistinct(rows)
    ensures |Listing(key, rows, [], n)| == |Firsts(key, rows, n)|
    ensures forall m :: 0 <= m < |Firsts(key, rows, n)| ==>
              && Listing(key, rows, [], n)[m] == Listed(rows, Firsts(key, rows, n)[m])
              && Keys(key, Listing(key, rows, [], n))[m] == RowKey(key, rows[Firsts(key, rows, n)[m]])
    ensures forall name :: name in Keys(key, Listing(key, rows, [], n)) <==> name in NamesBelow(key, rows, n)
  {
    ListingOfFirsts(key, rows, n);
    forall m | 0 <= m < |Firsts(key, rows, n)|
      ensures ResultKey(key, Listed(rows, Firsts(key, rows, n)[m])) == RowKey(key, rows[Firsts(key, rows, n)[m]])
    {
      ListedKey(key, rows, Firsts(key, rows, n)[m]);
    }
    forall name
      ensures name in Keys(key, Listing(key, rows, [], n)) <==> name in NamesBelow(key, rows, n)
    {
      ListingNames(key, rows, n, name);
    }
  }

  lemma {:induction false} ListingOfFirsts(key: Key, rows: seq<HeapRow>, n: nat)
    requires n <= |rows| && UidsDistinct(rows)
    ensures |Listing(key, rows, [], n)| == |Firsts(key, rows, n)|
    ensures forall m :: 0 <= m < |Firsts(key, rows, n)| ==>
              Listing(key, rows, [], n)[m] == Listed(rows, Firsts(key, rows, n)[m])
  {
    hide UidsDistinct, Listed, ResultKey, RowKey, NamesBelow;
    if n > 0 {
      ListingOfFirsts(key, rows, n - 1);
      ListingNames(key, rows, n - 1, RowKey(key, rows[n - 1]));
    }
  }

  lemma {:induction false} ListingDistinct(key: Key, rows: seq<HeapRow>, n: nat)
    requires n <= |rows| && UidsDistinct(rows)
    ensures NoDuplicates(Keys(key, Listing(key, rows, [], n)))
  {
    hide UidsDistinct, Listing, RowKey, Keys;
    if n > 0 {
      ListingDistinct(key, rows, n - 1);
      ListingStep(key, rows, n);
      var before, name := Keys(key, Listing(key, rows, [], n - 1)), RowKey(key, rows[n - 1]);
      if name !in before {
        NoDuplicatesConcat(before, [name]);
      }
    } else {
      EmptyListing(key, rows);
    }
  }

  lemma ListedKey(key: Key, rows: seq<HeapRow>, i: nat)
    requires i < |rows| && UidsDistinct(rows)
    ensures ResultKey(key, Listed(rows, i)) == RowKey(key, rows[i])
  {
    LookupInverts(rows);
  }

  /** The names that a listing shows. */
  ghost function Names(key: Key, rows: seq<HeapRow>): seq<Label> {
    Keys(key, Listing(key, rows, [], |rows|))
  }

  /** Listed names are pairwise distinct and are exactly the names in the table. */
  lemma NamesExact(key: Key, rows: seq<HeapRow>)
    requires UidsDistinct(rows)
    ensures NoDuplicates(Names(key, rows))
    ensures forall name :: name in Names(key, rows) <==> exists i :: 0 <= i < |rows| && RowKey(key, rows[i]) == name
  {
    ListingIsFirsts(key, rows, |rows|);
    ListingDistinct(key, rows, |rows|);
    forall name
      ensures name in Names(key, rows) <==> exists i :: 0 <= i < |rows| && RowKey(key, rows[i]) == name
    {
      NamesBelowExact(key, rows, |rows|, name);
    }
  }

  /** The listings in fields. The groups are exactly the functional groups of the table, the registers its
      register names, none twice; and each listed row has uid and texts of the first table row with the
      name, and no value. */
  lemma {:induction false} ListingInFields(key: Key, rows: seq<HeapRow>, m: nat)
    requires UidsDistinct(rows) && m < |Listing(key, rows, [], |rows|)|
    ensures |Listing(key, rows, [], |rows|)| == |Firsts(key, rows, |rows|)|
    ensures var p, row := Listing(key, rows, [], |rows|)[m], rows[Firsts(key, rows, |rows|)[m]];
            && p.uid == row.uid && p.bitfield == row.bitfield && p.functionalGroup == row.functionalGroup
            && p.registerName == row.registerName && p.description == row.description
            && p.ioctl == 0 && p.value == 0 && p.cpu == 0 && p.epl == 0 && p.midr == 0 && p.status == Success
  {
    hide Listing, Firsts, UidsDistinct, IndexOf;
    ListingIsFirsts(key, rows, |rows|);
    LookupInverts(rows);
  }

  lemma {:induction false} NamesInFields(rows: seq<HeapRow>, name: Label)
    requires UidsDistinct(rows)
    ensures NoDuplicates(Names(ByGroup, rows)) && NoDuplicates(Names(ByRegister, rows))
    ensures name in Names(ByGroup, rows) <==> exists i :: 0 <= i < |rows| && rows[i].functionalGroup == name
    ensures name in Names(ByRegister, rows) <==> exists i :: 0 <= i < |rows| && rows[i].registerName == name
  {
    hide Names, UidsDistinct, NoDuplicates;
    NamesExact(ByGroup, rows);
    NamesExact(ByRegister, rows);
    if i :| 0 <= i < |rows| && rows[i].functionalGroup == name {
      assert RowKey(ByGroup, rows[i]) == name;
    }
    if i :| 0 <= i < |rows| && rows[i].registerName == name {
      assert RowKey(ByRegister, rows[i]) == name;
    }
  }

  // ----- breakout_search_table -----

  predicate Named(row: HeapRow, info: MatchInfo) {
    row.uid == info.uid || row.functionalGroup == info.functionalGroup || row.registerName == info.registerName
  }

  /** Whether the row's table applies to the requested architecture and implementation. */
  predicate Admitted(row: HeapRow, info: MatchInfo) {
    match row.tableType
    case TypeImpl =>
      && info.architecture == ToUnsigned(ArchFromImpl(MscodePart(row.uid)))
      && (info.implementation == IMPL_ALL || info.implementation == MscodePart(row.uid))
    case TypeArch => MscodePart(row.uid) == info.architecture
    case TypeMm => true
  }

  function RequestFor(row: HeapRow, info: MatchInfo): Request {
    Request(row.registerUid, row.uid, row.ppl, info.pl, info.cpu, info.noparse, MscodePart(row.uid),
            info.supplied, info.calcValue)
  }

  /** The indices below `n` of the rows that a search returns. */
  ghost function MatchIndices(rows: seq<HeapRow>, info: MatchInfo, n: nat): (r: seq<nat>)
    requires n <= |rows|
    ensures forall m :: 0 <= m < |r| ==> r[m] < n
  {
    if n == 0 then []
    else if Named(rows[n - 1], info) && Admitted(rows[n - 1], info) then MatchIndices(rows, info, n - 1) + [n - 1]
    else MatchIndices(rows, info, n - 1)
  }

  /** What a search of the rows below `n` returns. */
  ghost function Matches(rows: seq<HeapRow>, info: MatchInfo, n: nat): seq<Request>
    requires n <= |rows|
  {
    if n == 0 then []
    else if Named(rows[n - 1], info) && Admitted(rows[n - 1], info) then
      Matches(rows, info, n - 1) + [RequestFor(rows[n - 1], info)]
    else Matches(rows, info, n - 1)
  }

  lemma {:induction false} MatchesAtIndices(rows: seq<HeapRow>, info: MatchInfo, n: nat)
    requires n <= |rows|
    ensures |Matches(rows, info, n)| == |MatchIndices(rows, info, n)|
    ensures forall m :: 0 <= m < |Matches(rows, info, n)| ==>
              Matches(rows, info, n)[m] == RequestFor(rows[MatchIndices(rows, info, n)[m]], info)
  {
    hide Named, Admitted, RequestFor;
    if n > 0 {
      MatchesAtIndices(rows, info, n - 1);
    }
  }

  /** `breakout_add_match`. */
  method AddMatch(list: ListHead<Request>, row: HeapRow, info: MatchInfo, part: u32)
    requires list.Valid()
    modifies list, list.Nodes()
    ensures list.Valid() && fresh(list.Nodes() - old(list.Nodes()))
    ensures list.contents == old(list.contents)
          + [Request(row.registerUid, row.uid, row.ppl, info.pl, info.cpu, info.noparse, part,
                     info.supplied, info.calcValue)]
  {
    list.Append(Request(row.registerUid, row.uid, row.ppl, info.pl, info.cpu, info.noparse, part,
                        info.supplied, info.calcValue));
  }

  /** One row of `breakout_search_table`. */
  method SearchRow(row: HeapRow, info: MatchInfo, list: ListHead<Request>)
    requires list.Valid()
    modifies list, list.Nodes()
    ensures list.Valid() && fresh(list.Nodes() - old(list.Nodes()))
    ensures list.contents == old(list.contents)
                             + if Named(row, info) && Admitted(row, info) then [RequestFor(row, info)] else []
  {
    var part := MscodePart(row.uid);
    if row.uid == info.uid || row.functionalGroup == info.functionalGroup || row.registerName == info.registerName {
      if row.tableType == TypeImpl {
        if info.architecture == ToUnsigned(ArchFromImpl(part))
           && (info.implementation == IMPL_ALL || info.implementation == part)
        {
          AddMatch(list, row, info, part);
        }
      } else if row.tableType == TypeArch {
        if part == info.architecture {
          AddMatch(list, row, info, part);
        }
      } else if row.tableType == TypeMm {
        AddMatch(list, row, info, part);
      }
    }
  }

  /** `breakout_search_table`. */
  method SearchTable(rows: seq<HeapRow>, info: MatchInfo, list: ListHead<Request>)
    requires list.Valid()
    modifies list, list.Nodes()
    ensures list.Valid() && fresh(list.Nodes() - old(list.Nodes()))
    ensures list.contents == old(list.contents) + Matches(rows, info, |rows|)
  {
    hide Named, Admitted, RequestFor;
    var i := 0;
    while i < |rows|
      invariant 0 <= i <= |rows|
      invariant list.Valid() && fresh(list.Nodes() - old(list.Nodes()))
      invariant list.contents == old(list.contents) + Matches(rows, info, i)
    {
      SearchRow(rows[i], info, list);
      i := i + 1;
    }
  }

  /** Whether a search returns a row, in the fields of row and query: the row must have the asked uid, group
      or register name, and must belong to a device; or to the asked architecture; or to an
      implementation of that architecture (2, 3 and 4 of the first, 5 and 6 of the second), if all
      implementations or just this one are asked for. */
  lemma RowInFields(row: HeapRow, info: MatchInfo)
    ensures Named(row, info)
       <==> row.uid == info.uid || row.functionalGroup == info.functionalGroup || row.registerName == info.registerName
    ensures Admitted(row, info)
       <==> var part := MscodePart(row.uid);
            || row.tableType == TypeMm
            || (row.tableType == TypeArch && part == info.architecture)
            || (&& row.tableType == TypeImpl && (info.implementation == 7 || info.implementation == part)
                && (|| (2 <= part <= 4 && info.architecture == 0)
                    || (5 <= part <= 6 && info.architecture == 1)
                    || (!(2 <= part <= 6) && info.architecture == 0xFFFF_FFFF)))
  {
    hide MscodePart;
  }

  lemma {:induction false} MatchesAscend(rows: seq<HeapRow>, info: MatchInfo, n: nat)
    requires n <= |rows|
    ensures forall a, b :: 0 <= a < b < |MatchIndices(rows, info, n)| ==>
              MatchIndices(rows, info, n)[a] < MatchIndices(rows, info, n)[b]
  {
    hide Named, Admitted;
    if n > 0 {
      MatchesAscend(rows, info, n - 1);
    }
  }

  /** The search in fields: the indices of such rows, ascending. */
  lemma {:induction false} SearchInFields(rows: seq<HeapRow>, info: MatchInfo, i: nat)
    ensures forall a, b :: 0 <= a < b < |MatchIndices(rows, info, |rows|)| ==>
              MatchIndices(rows, info, |rows|)[a] < MatchIndices(rows, info, |rows|)[b]
    ensures i in MatchIndices(rows, info, |rows|)
       <==> && i < |rows|
            && (|| rows[i].uid == info.uid || rows[i].functionalGroup == info.functionalGroup
                || rows[i].registerName == info.registerName)
            && var part := MscodePart(rows[i].uid);
               || rows[i].tableType == TypeMm
               || (rows[i].tableType == TypeArch && part == info.architecture)
               || (&& rows[i].tableType == TypeImpl && (info.implementation == 7 || info.implementation == part)
                   && (|| (2 <= part <= 4 && info.architecture == 0)
                       || (5 <= part <= 6 && info.architecture == 1)
                       || (!(2 <= part <= 6) && info.architecture == 0xFFFF_FFFF)))
  {
    hide MscodePart, MatchIndices, Named, Admitted;
    MatchesAscend(rows, info, |rows|);
    MatchesExact(rows, info, |rows|);
    if i < |rows| {
      RowInFields(rows[i], info);
    }
  }

  /** A request carries its row's register, uid, level and part, and the rest as the query asks. */
  lemma {:induction false} RequestsInFields(rows: seq<HeapRow>, info: MatchInfo, m: nat)
    requires m < |Matches(rows, info, |rows|)|
    ensures m < |MatchIndices(rows, info, |rows|)|
    ensures var q, row := Matches(rows, info, |rows|)[m], rows[MatchIndices(rows, info, |rows|)[m]];
            && q.registerUid == row.registerUid && q.uid == row.uid && q.ppl == row.ppl && q.part == MscodePart(row.uid)
            && q.pl == info.pl && q.cpu == info.cpu && q.noparse == info.noparse
            && q.supplied == info.supplied && q.calcValue == info.calcValue
  {
    hide MscodePart, Matches, MatchIndices;
    MatchesAtIndices(rows, info, |rows|);
  }

  // ----- searching group by group -----

  /** The rows found by searching once for each name of `groups`, in order. */
  ghost function SearchEach(rows: seq<HeapRow>, info: MatchInfo, groups: seq<Label>): seq<nat> {
    if groups == [] then []
    else MatchIndices(rows, info.(functionalGroup := groups[0]), |rows|) + SearchEach(rows, info, groups[1..])
  }

  /** A search returns a row once if it is named and admitted, and otherwise not at all. */
  lemma {:induction false} MatchesExact(rows: seq<HeapRow>, info: MatchInfo, n: nat)
    requires n <= |rows|
    ensures NoDuplicates(MatchIndices(rows, info, n))
    ensures forall i :: i in MatchIndices(rows, info, n)
                   <==> 0 <= i < n && Named(rows[i], info) && Admitted(rows[i], info)
  {
    hide Named, Admitted;
    if n > 0 {
      MatchesExact(rows, info, n - 1);
    }
  }

  lemma {:induction false} CountOfDistinct<T>(names: seq<T>, name: T)
    requires NoDuplicates(names)
    ensures multiset(names)[name] == if name in names then 1 else 0
  {
    if names != [] {
      assert names == [names[0]] + names[1..];
      CountOfDistinct(names[1..], name);
    }
  }

  /** How often searching group by group returns a row: each time when the search names it by uid
      or register as well, and otherwise once for each occurrence of its group. */
  lemma {:induction false} SearchEachCount(rows: seq<HeapRow>, info: MatchInfo, groups: seq<Label>, i: nat)
    ensures multiset(SearchEach(rows, info, groups))[i]
         == if i >= |rows| || !Admitted(rows[i], info) then 0
            else if rows[i].uid == info.uid || rows[i].registerName == info.registerName then |groups|
            else multiset(groups)[rows[i].functionalGroup]
  {
    if groups != [] {
      SearchEachCount(rows, info, groups[1..], i);
      MatchesExact(rows, info.(functionalGroup := groups[0]), |rows|);
      CountOfDistinct(MatchIndices(rows, info.(functionalGroup := groups[0]), |rows|), i);
      assert groups == [groups[0]] + groups[1..];
    }
  }

  /** Searching once for each listed group returns every row of an admitted table exactly once and
      nothing else, as long as the search does not name rows by uid or register; rows it does name
      come back from every one of the searches. */
  lemma GroupsPartitionTable(rows: seq<HeapRow>, info: MatchInfo, i: nat)
    requires UidsDistinct(rows)
    ensures multiset(SearchEach(rows, info, Names(ByGroup, rows)))[i]
         == if i >= |rows| || !Admitted(rows[i], info) then 0
            else if rows[i].uid == info.uid || rows[i].registerName == info.registerName then |Names(ByGroup, rows)|
            else 1
  {
    var names := Names(ByGroup, rows);
    SearchEachCount(rows, info, names, i);
    NamesExact(ByGroup, rows);
    if i < |rows| {
      CountOfDistinct(names, rows[i].functionalGroup);
      assert RowKey(ByGroup, rows[i]) in names;
    }
  }
}
