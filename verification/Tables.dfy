/** Expansion of the static decode tables into the one table that every query searches. */
module Tables {
  import opened Bits
  import opened Parse

  const MS_GICV2_ALIGNMENT: nat := 4

  // ----- what the expansion is -----

  /** One row to be written: table `i`, row `j` of it, copy `k` of that row. */
  datatype Site = Site(i: nat, j: nat, k: nat)

  ghost predicate IsSystem(t: Table) {
    t.tableType == TypeArch || t.tableType == TypeImpl
  }

  /** How often row `j` of a table is written: device rows once for each index of their range,
      and only when devices are asked for. */
  ghost function Copies(t: Table, j: nat, includeDevices: int): nat
    requires j < |t.rows|
  {
    if IsSystem(t) then 1 else if includeDevices == 1 then t.rows[j].range else 0
  }

  ghost function CopySites(t: Table, includeDevices: int, i: nat, j: nat, k: nat): seq<Site>
    requires j < |t.rows| && k <= Copies(t, j, includeDevices)
  {
    seq(Copies(t, j, includeDevices) - k, n requires n >= 0 => Site(i, j, k + n))
  }

  /** The sites of table `i` from row `j` on. */
  ghost function RowSites(t: Table, includeDevices: int, i: nat, j: nat): seq<Site>
    requires j <= |t.rows|
    decreases |t.rows| - j
  {
    if j == |t.rows| then []
    else CopySites(t, includeDevices, i, j, 0) + RowSites(t, includeDevices, i, j + 1)
  }

  /** The sites of the tables from `i` on, in the order in which they are written. */
  ghost function Sites(tables: seq<Table>, includeDevices: int, i: nat): seq<Site>
    requires i <= |tables|
    decreases |tables| - i
  {
    if i == |tables| then []
    else RowSites(tables[i], includeDevices, i, 0) + Sites(tables, includeDevices, i + 1)
  }

  ghost predicate InTables(tables: seq<Table>, s: Site) {
    s.i < |tables| && s.j < |tables[s.i].rows|
  }

  /** Rows that take their field number from the table and not from their place in the heap. */
  predicate Plain(t: Table, row: BitfieldInfo) {
    t.tableType == TypeArch || t.tableType == TypeImpl || row.range <= 1
  }

  /** Decimal digits, as printed by `%d`. */
  function Decimal(k: nat): string {
    var digit := [(k % 10 + '0' as int) as char];
    if k < 10 then digit else Decimal(k / 10) + digit
  }

  /** `create_uid`: the code of copy `k` carries the byte offset of its register. */
  function CreateUid(part: u32, register: u32, k: nat): u32 {
    Mscode(part, register, ToUnsigned(register + k * MS_GICV2_ALIGNMENT))
  }

  /** Copy `k` of a row, written at index `n` of the heap. */
  function ExpandRow(t: Table, row: BitfieldInfo, k: nat, n: nat): HeapRow {
    HeapRow(
      t.tableType,
      if Plain(t, row) then row.registerName else Label(row.registerName.text + Decimal(k)),
      row.range,
      Mscode(t.part, row.registerUid, if Plain(t, row) then row.uid else ToUnsigned(n)),
      if t.tableType == TypeMm then CreateUid(t.part, row.registerUid, k) else row.registerUid,
      row.ppl, row.rightshift, row.mask, row.bitfield, row.functionalGroup, row.description)
  }

  ghost function RowAt(tables: seq<Table>, s: Site, n: nat): HeapRow
    requires InTables(tables, s)
  {
    ExpandRow(tables[s.i], tables[s.i].rows[s.j], s.k, n)
  }

  /** The rows for a sequence of sites, written from index 0 up. */
  ghost function Image(tables: seq<Table>, sites: seq<Site>): (r: seq<HeapRow>)
    requires forall s :: s in sites ==> InTables(tables, s)
    ensures |r| == |sites|
    ensures forall n :: 0 <= n < |sites| ==> r[n] == RowAt(tables, sites[n], n)
  {
    seq(|sites|, n requires 0 <= n < |sites| => RowAt(tables, sites[n], n))
  }

  /** The expanded table. */
  ghost function Expansion(tables: seq<Table>, includeDevices: int): seq<HeapRow> {
    SitesComplete(tables, includeDevices, 0);
    Image(tables, Sites(tables, includeDevices, 0))
  }

  // ----- the sites -----

  lemma {:induction false} RowSitesComplete(t: Table, includeDevices: int, i: nat, j: nat)
    requires j <= |t.rows|
    ensures forall s :: s in RowSites(t, includeDevices, i, j)
                   <==> s.i == i && j <= s.j < |t.rows| && s.k < Copies(t, s.j, includeDevices)
    decreases |t.rows| - j
  {
    if j < |t.rows| {
      RowSitesComplete(t, includeDevices, i, j + 1);
      var here := CopySites(t, includeDevices, i, j, 0);
      forall s: Site | s.i == i && s.j == j && s.k < Copies(t, j, includeDevices)
        ensures s in here
      {
        assert here[s.k] == s;
      }
    }
  }

  /** Every copy of every row has its site, and nothing else has. */
  lemma {:induction false} SitesComplete(tables: seq<Table>, includeDevices: int, i: nat)
    requires i <= |tables|
    ensures forall s :: s in Sites(tables, includeDevices, i)
                   <==> i <= s.i && InTables(tables, s) && s.k < Copies(tables[s.i], s.j, includeDevices)
    decreases |tables| - i
  {
    if i < |tables| {
      RowSitesComplete(tables[i], includeDevices, i, 0);
      SitesComplete(tables, includeDevices, i + 1);
    }
  }

  ghost predicate NoDuplicates<T>(s: seq<T>) {
    forall m, n :: 0 <= m < n < |s| ==> s[m] != s[n]
  }

  lemma NoDuplicatesConcat<T>(a: seq<T>, b: seq<T>)
    requires NoDuplicates(a) && NoDuplicates(b) && forall x :: x in a ==> x !in b
    ensures NoDuplicates(a + b)
  {
    forall m, n | 0 <= m < n < |a + b|
      ensures (a + b)[m] != (a + b)[n]
    {
      if m < |a| <= n {
        assert a[m] in a && b[n - |a|] in b;
      }
    }
  }

  lemma {:induction false} RowSitesDistinct(t: Table, includeDevices: int, i: nat, j: nat)
    requires j <= |t.rows|
    ensures NoDuplicates(RowSites(t, includeDevices, i, j))
    decreases |t.rows| - j
  {
    if j < |t.rows| {
      RowSitesDistinct(t, includeDevices, i, j + 1);
      RowSitesComplete(t, includeDevices, i, j + 1);
      NoDuplicatesConcat(CopySites(t, includeDevices, i, j, 0), RowSites(t, includeDevices, i, j + 1));
    }
  }

  /** No copy of a row is written twice. */
  lemma {:induction false} SitesDistinct(tables: seq<Table>, includeDevices: int, i: nat)
    requires i <= |tables|
    ensures NoDuplicates(Sites(tables, includeDevices, i))
    decreases |tables| - i
  {
    if i < |tables| {
      RowSitesDistinct(tables[i], includeDevices, i, 0);
      RowSitesComplete(tables[i], includeDevices, i, 0);
      SitesDistinct(tables, includeDevices, i + 1);
      SitesComplete(tables, includeDevices, i + 1);
      NoDuplicatesConcat(RowSites(tables[i], includeDevices, i, 0), Sites(tables, includeDevices, i + 1));
    }
  }

  // ----- the allocation -----

  /** The ranges of the rows from `j` on, added up. */
  ghost function RangeSum(rows: seq<BitfieldInfo>, j: nat): nat
    requires j <= |rows|
    decreases |rows| - j
  {
    if j == |rows| then 0 else rows[j].range + RangeSum(rows, j + 1)
  }

  /** `return_bitfield_gicdv2_size` and `return_bitfield_giccv2_size`: the sum of the ranges. */
  method SizeWithRanges(rows: seq<BitfieldInfo>) returns (sum: nat)
    ensures sum == RangeSum(rows, 0)
  {
    sum := 0;
    var i := 0;
    while i < |rows|
      invariant 0 <= i <= |rows|
      invariant sum + RangeSum(rows, i) == RangeSum(rows, 0)
    {
      sum := sum + rows[i].range;
      i := i + 1;
    }
  }

  /** What a table reports as its size: rows for system registers, ranges for devices. */
  ghost function ReportedSize(t: Table): nat {
    if IsSystem(t) then |t.rows| else RangeSum(t.rows, 0)
  }

  ghost function Allocation(tables: seq<Table>, i: nat): nat
    requires i <= |tables|
    decreases |tables| - i
  {
    if i == |tables| then 0 else ReportedSize(tables[i]) + Allocation(tables, i + 1)
  }

  lemma {:induction false} RowSitesFit(t: Table, includeDevices: int, i: nat, j: nat)
    requires j <= |t.rows|
    ensures IsSystem(t) ==> |RowSites(t, includeDevices, i, j)| == |t.rows| - j
    ensures !IsSystem(t) ==>
              |RowSites(t, includeDevices, i, j)| == if includeDevices == 1 then RangeSum(t.rows, j) else 0
    decreases |t.rows| - j
  {
    if j < |t.rows| {
      RowSitesFit(t, includeDevices, i, j + 1);
    }
  }

  /** The unrolled rows fit the summed table sizes, and fill them when devices are included. */
  lemma {:induction false} ExpansionFits(tables: seq<Table>, includeDevices: int, i: nat)
    requires i <= |tables|
    ensures |Sites(tables, includeDevices, i)| <= Allocation(tables, i)
    ensures includeDevices == 1 ==> |Sites(tables, includeDevices, i)| == Allocation(tables, i)
    decreases |tables| - i
  {
    if i < |tables| {
      RowSitesFit(tables[i], includeDevices, i, 0);
      ExpansionFits(tables, includeDevices, i + 1);
    }
  }

  // ----- the expansion loops -----

  /** The globals `g_bitfield_table_heap` and `g_bitfield_table_size`. */
  class BitfieldHeap {
    var heap: array<HeapRow>
    var size: nat

    ghost predicate Valid()
      reads this
    {
      size <= heap.Length
    }

    /** The rows that searches see. */
    ghost function Rows(): seq<HeapRow>
      requires Valid()
      reads this, heap
    {
      heap[..size]
    }

    constructor ()
      ensures Valid() && Rows() == []
    {
      heap := new HeapRow[0];
      size := 0;
    }

    /** `read_tables_to_memory`, first loop: the number of rows to allocate. */
    static method AllocationSize(tables: seq<Table>) returns (bufferSize: nat)
      ensures bufferSize == Allocation(tables, 0)
    {
      bufferSize := 0;
      var i := 0;
      while i < |tables|
        invariant 0 <= i <= |tables|
        invariant bufferSize + Allocation(tables, i) == Allocation(tables, 0)
      {
        if tables[i].tableType == TypeMm {
          var sum := SizeWithRanges(tables[i].rows);
          bufferSize := bufferSize + sum;
        } else {
          bufferSize := bufferSize + |tables[i].rows|;
        }
        i := i + 1;
      }
    }

    /** `read_tables_to_memory`: allocates for the reported sizes, then writes the expansion, each
        row once and inside the allocation. */
    method ReadTablesToMemory(tables: seq<Table>, includeDevices: int)
      modifies this
      ensures Valid() && fresh(heap)
      ensures heap.Length == Allocation(tables, 0)
      ensures Rows() == Expansion(tables, includeDevices)
    {
      var bufferSize := AllocationSize(tables);
      var rows := new HeapRow[bufferSize];
      ghost var all := Sites(tables, includeDevices, 0);
      SitesComplete(tables, includeDevices, 0);
      ExpansionFits(tables, includeDevices, 0);
      var bufferIndex: nat := 0;
      var i := 0;
      while i < |tables|
        invariant 0 <= i <= |tables| && rows.Length == bufferSize
        invariant Written(tables, includeDevices, rows, bufferIndex, Sites(tables, includeDevices, i))
      {
        bufferIndex := ExpandTable(tables, includeDevices, i, rows, bufferIndex);
        i := i + 1;
      }
      heap := rows;
      size := bufferIndex;
      assert all[..bufferIndex] == all;
    }
  }

  /** Loop state: the first `index` rows are the image of the first `index` sites, and `rest` are
      the sites still to be written. */
  ghost predicate Written(tables: seq<Table>, includeDevices: int, rows: array<HeapRow>, index: nat, rest: seq<Site>)
    reads rows
  {
    var all := Sites(tables, includeDevices, 0);
    && index <= |all| <= rows.Length
    && all[index..] == rest
    && (forall s :: s in all ==> InTables(tables, s))
    && forall n :: 0 <= n < index ==> rows[n] == RowAt(tables, all[n], n)
  }

  /** The row loops of `read_tables_to_memory` for table `i`. */
  method ExpandTable(tables: seq<Table>, includeDevices: int, i: nat, rows: array<HeapRow>, start: nat)
    returns (bufferIndex: nat)
    requires i < |tables|
    requires Written(tables, includeDevices, rows, start, Sites(tables, includeDevices, i))
    modifies rows
    ensures Written(tables, includeDevices, rows, bufferIndex, Sites(tables, includeDevices, i + 1))
  {
    bufferIndex := start;
    ghost var later := Sites(tables, includeDevices, i + 1);
    if tables[i].tableType == TypeArch || tables[i].tableType == TypeImpl {
      bufferIndex := ExpandSystemRows(tables, includeDevices, i, rows, start, later);
    }
    if includeDevices == 1 && tables[i].tableType == TypeMm {
      bufferIndex := ExpandDeviceRows(tables, includeDevices, i, rows, bufferIndex, later);
    }
    RowSitesFit(tables[i], includeDevices, i, 0);
    if bufferIndex == start {
      assert RowSites(tables[i], includeDevices, i, 0) + later == later;
    }
  }

  method ExpandSystemRows(tables: seq<Table>, ghost includeDevices: int, i: nat, rows: array<HeapRow>,
                          start: nat, ghost later: seq<Site>)
    returns (bufferIndex: nat)
    requires i < |tables| && IsSystem(tables[i])
    requires Written(tables, includeDevices, rows, start, RowSites(tables[i], includeDevices, i, 0) + later)
    modifies rows
    ensures Written(tables, includeDevices, rows, bufferIndex, later)
    ensures bufferIndex == start + |tables[i].rows|
  {
    bufferIndex := start;
    var j := 0;
    while j < |tables[i].rows|
      invariant 0 <= j <= |tables[i].rows| && bufferIndex == start + j
      invariant Written(tables, includeDevices, rows, bufferIndex, RowSites(tables[i], includeDevices, i, j) + later)
    {
      ghost var rest := RowSites(tables[i], includeDevices, i, j + 1) + later;
      assert RowSites(tables[i], includeDevices, i, j) + later == [Site(i, j, 0)] + rest;
      bufferIndex := WriteCopy(tables, includeDevices, i, j, 0, rows, bufferIndex, rest);
      j := j + 1;
    }
    assert RowSites(tables[i], includeDevices, i, j) + later == later;
  }

  method ExpandDeviceRows(tables: seq<Table>, ghost includeDevices: int, i: nat, rows: array<HeapRow>,
                          start: nat, ghost later: seq<Site>)
    returns (bufferIndex: nat)
    requires i < |tables| && !IsSystem(tables[i]) && includeDevices == 1
    requires Written(tables, includeDevices, rows, start, RowSites(tables[i], includeDevices, i, 0) + later)
    modifies rows
    ensures Written(tables, includeDevices, rows, bufferIndex, later)
    ensures bufferIndex == start + RangeSum(tables[i].rows, 0)
  {
    bufferIndex := start;
    var j := 0;
    while j < |tables[i].rows|
      invariant 0 <= j <= |tables[i].rows|
      invariant bufferIndex + RangeSum(tables[i].rows, j) == start + RangeSum(tables[i].rows, 0)
      invariant Written(tables, includeDevices, rows, bufferIndex, RowSites(tables[i], includeDevices, i, j) + later)
    {
      ghost var rest := RowSites(tables[i], includeDevices, i, j + 1) + later;
      assert RowSites(tables[i], includeDevices, i, j) + later == CopySites(tables[i], includeDevices, i, j, 0) + rest;
      bufferIndex := ExpandRange(tables, includeDevices, i, j, rows, bufferIndex, rest);
      j := j + 1;
    }
    assert RowSites(tables[i], includeDevices, i, j) + later == later;
  }

  /** The innermost loop: one row for each index of the range. */
  method ExpandRange(tables: seq<Table>, ghost includeDevices: int, i: nat, j: nat, rows: array<HeapRow>,
                     start: nat, ghost rest: seq<Site>)
    returns (bufferIndex: nat)
    requires i < |tables| && j < |tables[i].rows| && !IsSystem(tables[i]) && includeDevices == 1
    requires Written(tables, includeDevices, rows, start, CopySites(tables[i], includeDevices, i, j, 0) + rest)
    modifies rows
    ensures Written(tables, includeDevices, rows, bufferIndex, rest)
    ensures bufferIndex == start + tables[i].rows[j].range
  {
    bufferIndex := start;
    var k := 0;
    while k < tables[i].rows[j].range
      invariant 0 <= k <= tables[i].rows[j].range && bufferIndex == start + k
      invariant Written(tables, includeDevices, rows, bufferIndex, CopySites(tables[i], includeDevices, i, j, k) + rest)
    {
      ghost var after := CopySites(tables[i], includeDevices, i, j, k + 1) + rest;
      assert CopySites(tables[i], includeDevices, i, j, k) + rest == [Site(i, j, k)] + after;
      bufferIndex := WriteCopy(tables, includeDevices, i, j, k, rows, bufferIndex, after);
      k := k + 1;
    }
    assert CopySites(tables[i], includeDevices, i, j, k) + rest == rest;
  }

  /** Writes one row and steps the index. */
  method WriteCopy(tables: seq<Table>, ghost includeDevices: int, i: nat, j: nat, k: nat,
                   rows: array<HeapRow>, start: nat, ghost rest: seq<Site>)
    returns (bufferIndex: nat)
    requires i < |tables| && j < |tables[i].rows|
    requires Written(tables, includeDevices, rows, start, [Site(i, j, k)] + rest)
    modifies rows
    ensures bufferIndex == start + 1
    ensures Written(tables, includeDevices, rows, bufferIndex, rest)
  {
    ghost var all := Sites(tables, includeDevices, 0);
    assert all[start] == all[start..][0];
    assert all[start + 1..] == all[start..][1..];
    rows[start] := ExpandRow(tables[i], tables[i].rows[j], k, start);
    bufferIndex := start + 1;
  }

  // ----- uids -----

  ghost predicate UidsDistinct(rows: seq<HeapRow>) {
    forall m, n :: 0 <= m < n < |rows| ==> rows[m].uid != rows[n].uid
  }

  /** The heap index of the first copy of row `j` of table `i`: the copies that come before it. */
  ghost function Place(tables: seq<Table>, includeDevices: int, i: nat, j: nat): nat
    requires i < |tables| && j <= |tables[i].rows|
    decreases i, j
  {
    if j > 0 then Place(tables, includeDevices, i, j - 1) + Copies(tables[i], j - 1, includeDevices)
    else if i > 0 then Place(tables, includeDevices, i - 1, |tables[i - 1].rows|)
    else 0
  }

  lemma {:induction false} SitesFromPlace(tables: seq<Table>, includeDevices: int, i: nat, j: nat)
    requires i < |tables| && j <= |tables[i].rows|
    ensures Place(tables, includeDevices, i, j) <= |Sites(tables, includeDevices, 0)|
    ensures Sites(tables, includeDevices, 0)[Place(tables, includeDevices, i, j)..]
         == RowSites(tables[i], includeDevices, i, j) + Sites(tables, includeDevices, i + 1)
    decreases i, j
  {
    hide CopySites;
    var all := Sites(tables, includeDevices, 0);
    if j > 0 {
      SitesFromPlace(tables, includeDevices, i, j - 1);
      var here := CopySites(tables[i], includeDevices, i, j - 1, 0);
      var later := Sites(tables, includeDevices, i + 1);
      assert |here| == Copies(tables[i], j - 1, includeDevices) by { CopyCount(tables[i], includeDevices, i, j - 1); }
      Dropped(all, Place(tables, includeDevices, i, j - 1), here, RowSites(tables[i], includeDevices, i, j), later);
    } else if i > 0 {
      SitesFromPlace(tables, includeDevices, i - 1, |tables[i - 1].rows|);
    }
  }

  lemma CopyCount(t: Table, includeDevices: int, i: nat, j: nat)
    requires j < |t.rows|
    ensures |CopySites(t, includeDevices, i, j, 0)| == Copies(t, j, includeDevices)
  {}

  lemma Dropped<T>(all: seq<T>, at: nat, here: seq<T>, rest: seq<T>, later: seq<T>)
    requires at <= |all| && all[at..] == (here + rest) + later
    ensures at + |here| <= |all| && all[at + |here|..] == rest + later
  {
    assert all[at..][|here|..] == rest + later;
  }

  /** Copy `k` of a row is written `k` places after the first. */
  lemma SiteAtPlace(tables: seq<Table>, includeDevices: int, s: Site)
    requires InTables(tables, s) && s.k < Copies(tables[s.i], s.j, includeDevices)
    ensures Place(tables, includeDevices, s.i, s.j) + s.k < |Sites(tables, includeDevices, 0)|
    ensures Sites(tables, includeDevices, 0)[Place(tables, includeDevices, s.i, s.j) + s.k] == s
  {
    SitesFromPlace(tables, includeDevices, s.i, s.j);
    var all, at := Sites(tables, includeDevices, 0), Place(tables, includeDevices, s.i, s.j);
    var here := CopySites(tables[s.i], includeDevices, s.i, s.j, 0);
    assert RowSites(tables[s.i], includeDevices, s.i, s.j)
        == here + RowSites(tables[s.i], includeDevices, s.i, s.j + 1);
    assert all[at..][s.k] == here[s.k];
  }

  /** What is written at heap index `m`: some copy of some row, and `m` is its place. */
  lemma PlaceOfSite(tables: seq<Table>, includeDevices: int, m: nat)
    requires m < |Sites(tables, includeDevices, 0)|
    ensures var s := Sites(tables, includeDevices, 0)[m];
            && InTables(tables, s) && s.k < Copies(tables[s.i], s.j, includeDevices)
            && m == Place(tables, includeDevices, s.i, s.j) + s.k
  {
    SitesComplete(tables, includeDevices, 0);
    SitesDistinct(tables, includeDevices, 0);
    var s := Sites(tables, includeDevices, 0)[m];
    assert s in Sites(tables, includeDevices, 0);
    SiteAtPlace(tables, includeDevices, s);
  }

  /** Row `j` of table `i` has at least one copy. */
  ghost predicate Present(tables: seq<Table>, includeDevices: int, i: nat, j: nat) {
    i < |tables| && j < |tables[i].rows| && Copies(tables[i], j, includeDevices) > 0
  }

  /** The heap indices and the numbers from the tables fit a field. */
  ghost predicate WithinWord(tables: seq<Table>, includeDevices: int) {
    && |Sites(tables, includeDevices, 0)| <= 0x1_0000
    && forall i, j :: 0 <= i < |tables| && 0 <= j < |tables[i].rows| ==> tables[i].rows[j].uid < 0x1_0000
  }

  /** Copies of row `j` of table `i` are written at heap index `n`. */
  ghost predicate WrittenAt(tables: seq<Table>, includeDevices: int, i: nat, j: nat, n: nat)
    requires i < |tables| && j < |tables[i].rows|
  {
    var place := Place(tables, includeDevices, i, j);
    place <= n < place + Copies(tables[i], j, includeDevices)
  }

  /** Two rows are never given the same number in the same packed register: not by the table, and not
      one by the table and the other by its place in the heap. */
  ghost predicate RowsSeparate(tables: seq<Table>, includeDevices: int, i: nat, j: nat, i': nat, j': nat)
    requires i < |tables| && j < |tables[i].rows| && i' < |tables| && j' < |tables[i'].rows|
  {
    var t, t' := tables[i], tables[i'];
    var r, r' := t.rows[j], t'.rows[j'];
    Slot(t.part, r.registerUid) == Slot(t'.part, r'.registerUid) ==>
      && (Plain(t, r) && Plain(t', r') ==> r.uid != r'.uid)
      && (Plain(t, r) && !Plain(t', r') ==> !WrittenAt(tables, includeDevices, i', j', r.uid))
      && (!Plain(t, r) && Plain(t', r') ==> !WrittenAt(tables, includeDevices, i, j, r'.uid))
  }

  ghost predicate FieldsSeparate(tables: seq<Table>, includeDevices: int) {
    forall i: nat, j: nat, i': nat, j': nat ::
      Present(tables, includeDevices, i, j) && Present(tables, includeDevices, i', j') && (i, j) != (i', j') ==>
        RowsSeparate(tables, includeDevices, i, j, i', j')
  }

  /** Every row of the expanded table has a uid of its own exactly when rows that share a packed
      register are numbered apart: those that the table numbers differ, and none of their numbers is
      the heap index of a copy of a row that is numbered by its place. */
  lemma UidsAreDistinct(tables: seq<Table>, includeDevices: int)
    requires WithinWord(tables, includeDevices)
    ensures UidsDistinct(Expansion(tables, includeDevices)) <==> FieldsSeparate(tables, includeDevices)
  {
    hide RowAt, RowsSeparate, InTables, Sites;
    var all, rows := Sites(tables, includeDevices, 0), Expansion(tables, includeDevices);
    SitesComplete(tables, includeDevices, 0);
    if FieldsSeparate(tables, includeDevices) {
      forall m, n | 0 <= m < n < |all|
        ensures rows[m].uid != rows[n].uid
      {
        PlaceOfSite(tables, includeDevices, m);
        PlaceOfSite(tables, includeDevices, n);
        SeparateRowsDiffer(tables, includeDevices, all[m], all[n]);
      }
    }
    if UidsDistinct(rows) {
      forall i: nat, j: nat, i': nat, j': nat |
          Present(tables, includeDevices, i, j) && Present(tables, includeDevices, i', j') && (i, j) != (i', j')
        ensures RowsSeparate(tables, includeDevices, i, j, i', j')
      {
        DifferingRowsSeparate(tables, includeDevices, i, j, i', j');
      }
    }
  }

  /** The field of the uid at a site. */
  ghost function FieldAt(tables: seq<Table>, includeDevices: int, s: Site): nat
    requires InTables(tables, s)
  {
    if Plain(tables[s.i], tables[s.i].rows[s.j]) then tables[s.i].rows[s.j].uid
    else Place(tables, includeDevices, s.i, s.j) + s.k
  }

  lemma UidAtPlace(tables: seq<Table>, includeDevices: int, s: Site)
    requires WithinWord(tables, includeDevices)
    requires InTables(tables, s) && s.k < Copies(tables[s.i], s.j, includeDevices)
    ensures FieldAt(tables, includeDevices, s) < 0x1_0000
    ensures Place(tables, includeDevices, s.i, s.j) + s.k < |Expansion(tables, includeDevices)|
    ensures Expansion(tables, includeDevices)[Place(tables, includeDevices, s.i, s.j) + s.k].uid
         == Mscode(tables[s.i].part, tables[s.i].rows[s.j].registerUid, FieldAt(tables, includeDevices, s))
  {
    hide Mscode, CreateUid, Decimal, Sites, Place;
    SiteAtPlace(tables, includeDevices, s);
    SitesComplete(tables, includeDevices, 0);
  }

  /** The uids written at two sites are equal exactly when packed registers and fields are. */
  lemma SiteUidsEqual(tables: seq<Table>, includeDevices: int, s: Site, s': Site)
    requires WithinWord(tables, includeDevices)
    requires InTables(tables, s) && s.k < Copies(tables[s.i], s.j, includeDevices)
    requires InTables(tables, s') && s'.k < Copies(tables[s'.i], s'.j, includeDevices)
    ensures var m, n := Place(tables, includeDevices, s.i, s.j) + s.k, Place(tables, includeDevices, s'.i, s'.j) + s'.k;
            && m < |Expansion(tables, includeDevices)| && n < |Expansion(tables, includeDevices)|
            && (Expansion(tables, includeDevices)[m].uid == Expansion(tables, includeDevices)[n].uid
                <==> Slot(tables[s.i].part, tables[s.i].rows[s.j].registerUid)
                     == Slot(tables[s'.i].part, tables[s'.i].rows[s'.j].registerUid)
                     && FieldAt(tables, includeDevices, s) == FieldAt(tables, includeDevices, s'))
  {
    hide Mscode, Slot, Sites, Place, Expansion, WithinWord, FieldAt;
    UidAtPlace(tables, includeDevices, s);
    UidAtPlace(tables, includeDevices, s');
    var t, t' := tables[s.i], tables[s'.i];
    CodesEqual(t.part, t.rows[s.j].registerUid, FieldAt(tables, includeDevices, s),
               t'.part, t'.rows[s'.j].registerUid, FieldAt(tables, includeDevices, s'));
  }

  lemma SeparateRowsDiffer(tables: seq<Table>, includeDevices: int, s: Site, s': Site)
    requires WithinWord(tables, includeDevices) && FieldsSeparate(tables, includeDevices) && s != s'
    requires InTables(tables, s) && s.k < Copies(tables[s.i], s.j, includeDevices)
    requires InTables(tables, s') && s'.k < Copies(tables[s'.i], s'.j, includeDevices)
    ensures var m, n := Place(tables, includeDevices, s.i, s.j) + s.k, Place(tables, includeDevices, s'.i, s'.j) + s'.k;
            && m < |Expansion(tables, includeDevices)| && n < |Expansion(tables, includeDevices)|
            && (m != n ==> Expansion(tables, includeDevices)[m].uid != Expansion(tables, includeDevices)[n].uid)
  {
    hide Slot, Sites, Place, Expansion;
    SiteUidsEqual(tables, includeDevices, s, s');
    if (s.i, s.j) != (s'.i, s'.j) {
      assert Present(tables, includeDevices, s.i, s.j) && Present(tables, includeDevices, s'.i, s'.j);
      assert RowsSeparate(tables, includeDevices, s.i, s.j, s'.i, s'.j);
    }
  }

  lemma DifferingRowsSeparate(tables: seq<Table>, includeDevices: int, i: nat, j: nat, i': nat, j': nat)
    requires WithinWord(tables, includeDevices) && UidsDistinct(Expansion(tables, includeDevices))
    requires Present(tables, includeDevices, i, j) && Present(tables, includeDevices, i', j') && (i, j) != (i', j')
    ensures RowsSeparate(tables, includeDevices, i, j, i', j')
  {
    hide Slot, Sites, Place, Expansion;
    var t, t' := tables[i], tables[i'];
    var r, r' := t.rows[j], t'.rows[j'];
    var at, at' := Place(tables, includeDevices, i, j), Place(tables, includeDevices, i', j');
    var k: nat := if !Plain(t, r) && WrittenAt(tables, includeDevices, i, j, r'.uid) then r'.uid - at else 0;
    var k': nat := if !Plain(t', r') && WrittenAt(tables, includeDevices, i', j', r.uid) then r.uid - at' else 0;
    SiteAtPlace(tables, includeDevices, Site(i, j, k));
    SiteAtPlace(tables, includeDevices, Site(i', j', k'));
    SiteUidsEqual(tables, includeDevices, Site(i, j, k), Site(i', j', k'));
  }

  /** Tables in the documented form. Architecture and implementation tables have parts of their own,
      every code within its width, and field numbers that differ within a register. Device tables may
      have wider registers, so that registers share packed bits, and ranged rows beside unranged
      ones, as long as no number of the one is the place of the other. */
  ghost predicate Documented(tables: seq<Table>, includeDevices: int) {
    && (forall i, j :: 0 <= i < |tables| && 0 <= j < |tables[i].rows| ==> tables[i].rows[j].uid < 0x1_0000)
    && (forall i :: 0 <= i < |tables| ==> InWidth(tables[i]))
    && (forall i, i' :: 0 <= i < i' < |tables| && IsSystem(tables[i]) && IsSystem(tables[i']) ==>
          tables[i].part != tables[i'].part)
    && (forall i, j, j' :: 0 <= i < |tables| && 0 <= j < j' < |tables[i].rows| && IsSystem(tables[i]) ==>
          NumberedApart(tables[i].rows[j], tables[i].rows[j']))
    && forall i: nat, j: nat, i': nat, j': nat ::
         Present(tables, includeDevices, i, j) && Present(tables, includeDevices, i', j') && (i, j) != (i', j')
         && !IsSystem(tables[i]) && !IsSystem(tables[i']) ==>
           RowsSeparate(tables, includeDevices, i, j, i', j')
  }

  ghost predicate InWidth(t: Table) {
    if IsSystem(t) then t.part < 8 && forall r :: r in t.rows ==> r.registerUid < 0x800
    else 8 <= t.part < 32
  }

  ghost predicate NumberedApart(r: BitfieldInfo, r': BitfieldInfo) {
    r.registerUid == r'.registerUid ==> r.uid != r'.uid
  }

  /** The documented form is enough for uid uniqueness, as long as the heap index fits a field. */
  lemma DocumentedTablesHaveDistinctUids(tables: seq<Table>, includeDevices: int)
    requires Documented(tables, includeDevices) && Allocation(tables, 0) <= 0x1_0000
    ensures UidsDistinct(Expansion(tables, includeDevices))
  {
    hide RowsSeparate, Sites, Expansion;
    ExpansionFits(tables, includeDevices, 0);
    forall i: nat, j: nat, i': nat, j': nat |
        Present(tables, includeDevices, i, j) && Present(tables, includeDevices, i', j') && (i, j) != (i', j')
      ensures RowsSeparate(tables, includeDevices, i, j, i', j')
    {
      if IsSystem(tables[i]) || IsSystem(tables[i']) {
        SystemRowsSeparate(tables, includeDevices, i, j, i', j');
      }
    }
    UidsAreDistinct(tables, includeDevices);
  }

  lemma SystemRowsSeparate(tables: seq<Table>, includeDevices: int, i: nat, j: nat, i': nat, j': nat)
    requires Documented(tables, includeDevices)
    requires Present(tables, includeDevices, i, j) && Present(tables, includeDevices, i', j') && (i, j) != (i', j')
    requires IsSystem(tables[i]) || IsSystem(tables[i'])
    ensures RowsSeparate(tables, includeDevices, i, j, i', j')
  {
    hide Slot, Place;
    var t, t' := tables[i], tables[i'];
    var r, r' := t.rows[j], t'.rows[j'];
    assert r in t.rows && r' in t'.rows;
    if !IsSystem(t) {
      DeviceSlotsApart(t'.part, r'.registerUid, t.part, r.registerUid);
    } else if !IsSystem(t') {
      DeviceSlotsApart(t.part, r.registerUid, t'.part, r'.registerUid);
    } else {
      InWidthSlots(t.part, r.registerUid, t'.part, r'.registerUid);
    }
  }

  /** Two rows of the distributor that share their packed register: GICD_CTLR, at offset 0, is
      numbered by the table, and GICD_ITARGETSR, 64 copies from offset 0x800 on, by place. In a table
      of just these two rows the copies are at heap indices 1 to 64, and the uids differ exactly when
      the number in the table is not one of these. The shipped second row of GICD_CTLR has number 1,
      so that only the rows in front of GICD_ITARGETSR keep the two apart. */
  lemma SharedPackedRegister(ctlr: BitfieldInfo, targets: BitfieldInfo)
    requires ctlr.range == 1 && ctlr.registerUid == 0 && ctlr.uid < 0x1_0000
    requires targets.range == 64 && targets.registerUid == 0x800 && targets.uid < 0x1_0000
    ensures UidsDistinct(Expansion([Table(TypeMm, GICD_V2, [ctlr, targets])], 1)) <==> !(1 <= ctlr.uid <= 64)
  {
    hide Slot, Expansion, Sites;
    var t := Table(TypeMm, GICD_V2, [ctlr, targets]);
    var tables := [t];
    SharedSlot();
    assert RangeSum(t.rows, 1) == 64 && RangeSum(t.rows, 0) == 65;
    assert Allocation(tables, 1) == 0 && Allocation(tables, 0) == 65;
    ExpansionFits(tables, 1, 0);
    UidsAreDistinct(tables, 1);
    assert Place(tables, 1, 0, 0) == 0 && Place(tables, 1, 0, 1) == 1;
    assert Present(tables, 1, 0, 0) && Present(tables, 1, 0, 1);
    assert RowsSeparate(tables, 1, 0, 0, 0, 1) <==> !(1 <= ctlr.uid <= 64);
    assert RowsSeparate(tables, 1, 0, 1, 0, 0) <==> !(1 <= ctlr.uid <= 64);
  }

  lemma SharedSlot()
    ensures Slot(GICD_V2, 0) == Slot(GICD_V2, 0x800)
  {
    hide Or, Shl, Shr, Low;
    Pow2Values();
    var x, y := Or(Shl(9, 11), 0), Or(Shl(9, 11), 0x800);
    OrAbove(9, 0, 11);
    OrAbove(9, 0x800, 11);
    ShrLow(x, 11);
    ShrLow(y, 11);
    ShiftIsDivision(0x800, 11);
    ShiftIsDivision(0, 11);
    OrOfZero(9);
    ExampleBits();
  }

  // ----- what is copied -----

  /** The number that a text of decimal digits spells. */
  function DecimalValue(text: string): int {
    if text == "" then 0
    else DecimalValue(text[..|text| - 1]) * 10 + (text[|text| - 1] as int - '0' as int)
  }

  ghost predicate IsNumeral(text: string) {
    && text != ""
    && (forall n :: 0 <= n < |text| ==> '0' <= text[n] <= '9')
    && (|text| > 1 ==> text[0] != '0')
  }

  lemma {:induction false} DecimalReadsBack(k: nat)
    ensures IsNumeral(Decimal(k)) && DecimalValue(Decimal(k)) == k
    ensures k > 0 ==> Decimal(k)[0] != '0'
  {
    var digit := [(k % 10 + '0' as int) as char];
    if k < 10 {
      assert digit[..0] == "";
    } else {
      DecimalReadsBack(k / 10);
      assert Decimal(k)[..|Decimal(k)| - 1] == Decimal(k / 10);
    }
  }

  /** Copy `k` of a row stands in the expanded table with everything that its row holds: type, range,
      level, shift, mask and texts; a system row with its register and its name as well. A device row
      that is not ranged keeps its name, and copy `k` of a ranged one has the number `k` after it. The
      uid has the number from the table, or for a ranged device row its place. */
  lemma ExpandedRow(tables: seq<Table>, includeDevices: int, s: Site)
    requires InTables(tables, s) && s.k < Copies(tables[s.i], s.j, includeDevices)
    ensures Place(tables, includeDevices, s.i, s.j) + s.k < |Expansion(tables, includeDevices)|
    ensures var n := Place(tables, includeDevices, s.i, s.j) + s.k;
            var r, row := Expansion(tables, includeDevices)[n], tables[s.i].rows[s.j];
            && r.tableType == tables[s.i].tableType && r.range == row.range && r.ppl == row.ppl
            && r.rightshift == row.rightshift && r.mask == row.mask
            && r.bitfield == row.bitfield && r.functionalGroup == row.functionalGroup
            && r.description == row.description
    ensures var n := Place(tables, includeDevices, s.i, s.j) + s.k;
            var t, r, row := tables[s.i], Expansion(tables, includeDevices)[n], tables[s.i].rows[s.j];
            && (t.tableType == TypeArch || t.tableType == TypeImpl ==>
                  r.registerUid == row.registerUid && r.registerName == row.registerName
                  && r.uid == Mscode(t.part, row.registerUid, row.uid))
            && (t.tableType == TypeMm && row.range <= 1 ==>
                  r.registerName == row.registerName && r.uid == Mscode(t.part, row.registerUid, row.uid))
            && (t.tableType == TypeMm && row.range > 1 ==>
                  && r.uid == Mscode(t.part, row.registerUid, n % 0x1_0000_0000)
                  && NumberedName(r.registerName, row.registerName, s.k))
  {
    hide Mscode, CreateUid, Decimal, Sites, Place;
    SiteAtPlace(tables, includeDevices, s);
    SitesComplete(tables, includeDevices, 0);
    NameWithNumber(tables[s.i].rows[s.j].registerName, s.k);
  }

  /** The name is the given one followed by the number `k` in decimal digits. */
  ghost predicate NumberedName(name: Label, base: Label, k: nat) {
    && base.text <= name.text
    && IsNumeral(name.text[|base.text|..]) && DecimalValue(name.text[|base.text|..]) == k
  }

  lemma NameWithNumber(base: Label, k: nat)
    ensures NumberedName(Label(base.text + Decimal(k)), base, k)
  {
    hide Decimal, IsNumeral, DecimalValue;
    DecimalReadsBack(k);
    assert (base.text + Decimal(k))[|base.text|..] == Decimal(k);
  }

  // ----- register codes of device rows -----

  /** Device register codes: the field of copy `k` is the register plus four times `k`, within 16 bits;
      the part stays a device part, and no such code is a bare system-register code. */
  lemma DeviceRegisterCode(t: Table, row: BitfieldInfo, k: nat, n: nat)
    requires t.tableType == TypeMm && 8 <= t.part < 32
    ensures MscodeField(ExpandRow(t, row, k, n).registerUid) == (row.registerUid + 4 * k) % 0x1_0000
    ensures MscodePart(ExpandRow(t, row, k, n).registerUid) >= 8
    ensures ExpandRow(t, row, k, n).registerUid > 0x800
  {
    hide Mscode, MscodeField, MscodePart, ToUnsigned, Decimal;
    var offset := row.registerUid + k * MS_GICV2_ALIGNMENT;
    FieldDecodes(t.part, row.registerUid, ToUnsigned(offset));
    DeviceCodesApart(t.part, row.registerUid, ToUnsigned(offset));
    LowOfUnsigned(offset);
    assert ExpandRow(t, row, k, n).registerUid == Mscode(t.part, row.registerUid, ToUnsigned(offset));
  }

  lemma LowOfUnsigned(x: nat)
    ensures ToUnsigned(x) % 0x1_0000 == x % 0x1_0000
  {
    var q, r := x / 0x1_0000_0000, x % 0x1_0000_0000;
    DivUnique(x, 0x1_0000, q * 0x1_0000 + r / 0x1_0000, r % 0x1_0000);
  }
}
