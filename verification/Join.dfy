/** From raw register values to requested bitfields: collect the rows of a register, cut the
    value, and join the pieces with the request. */
module Join {
  import opened Bits
  import opened Parse
  import opened Support
  import opened Decode
  import opened Tables
  import opened Lookup

  /** Shifting by the word size or more is undefined in C: decode tables have no such row. */
  ghost predicate ShiftsInWord(rows: seq<HeapRow>) {
    forall i :: 0 <= i < |rows| ==> rows[i].rightshift < 64
  }

  /** Tables without such a row expand to a table without one. */
  lemma {:induction false} ExpansionShiftsInWord(tables: seq<Table>, includeDevices: int)
    requires forall i, j :: 0 <= i < |tables| && 0 <= j < |tables[i].rows| ==> tables[i].rows[j].rightshift < 64
    ensures ShiftsInWord(Expansion(tables, includeDevices))
  {
    hide Sites, Mscode, CreateUid, Decimal;
    SitesComplete(tables, includeDevices, 0);
    var sites := Sites(tables, includeDevices, 0);
    forall n | 0 <= n < |sites|
      ensures RowAt(tables, sites[n], n).rightshift < 64
    {
      assert sites[n] in sites;
    }
  }

  // ----- breakout_construct_bitfield_list -----

  /** The indices below `n` of the rows of a register. */
  ghost function IndicesOf(rows: seq<HeapRow>, register: u32, n: nat): (r: seq<nat>)
    requires n <= |rows|
    ensures forall m :: 0 <= m < |r| ==> r[m] < n
  {
    if n == 0 then []
    else if rows[n - 1].registerUid == register then IndicesOf(rows, register, n - 1) + [n - 1]
    else IndicesOf(rows, register, n - 1)
  }

  method ConstructBitfieldList(rows: seq<HeapRow>, register: u32, list: ListHead<nat>)
    requires list.Valid()
    modifies list, list.Nodes()
    ensures list.Valid() && fresh(list.Nodes() - old(list.Nodes()))
    ensures list.contents == old(list.contents) + IndicesOf(rows, register, |rows|)
  {
    var i := 0;
    while i < |rows|
      invariant 0 <= i <= |rows|
      invariant list.Valid() && fresh(list.Nodes() - old(list.Nodes()))
      invariant list.contents == old(list.contents) + IndicesOf(rows, register, i)
    {
      if rows[i].registerUid == register {
        list.Append(i);
      }
      i := i + 1;
    }
  }

  // ----- breakout_apply_masks_to_list -----

  /** Row `i` decoded from a raw result. */
  ghost function MaskedRow(rows: seq<HeapRow>, i: nat, r: IoctlResult): Populated
    requires i < |rows| && ShiftsInWord(rows)
  {
    RowHasUid(rows, i);
    var value := ValueToLong(r.val64, r.low, r.high);
    Filled(rows, rows[i].uid, rows[i].registerUid, ApplyMask(value, rows[i].rightshift, rows[i].mask), value,
           r.cpu, r.epl, r.midr, r.status)
  }

  ghost function MaskedAt(rows: seq<HeapRow>, indices: seq<nat>, r: IoctlResult, n: nat): seq<Populated>
    requires n <= |indices| && ShiftsInWord(rows)
    requires forall m :: 0 <= m < |indices| ==> indices[m] < |rows|
  {
    if n == 0 then [] else MaskedAt(rows, indices, r, n - 1) + [MaskedRow(rows, indices[n - 1], r)]
  }

  method ApplyMasksToList(rows: seq<HeapRow>, r: IoctlResult, indices: ListHead<nat>, out: ListHead<Populated>)
    requires ShiftsInWord(rows) && indices.Valid() && out.Valid()
    requires forall m :: 0 <= m < |indices.contents| ==> indices.contents[m] < |rows|
    modifies out, out.Nodes()
    ensures out.Valid() && fresh(out.Nodes() - old(out.Nodes()))
    ensures out.contents == old(out.contents) + MaskedAt(rows, indices.contents, r, |indices.contents|)
  {
    hide IndexOf, ApplyMask, ValueToLong, ListHead.Valid;
    indices.WalkStart();
    ghost var idxs := indices.contents;
    var value := ValueToLong(r.val64, r.low, r.high);
    var temp := indices.head;
    ghost var i := 0;
    while temp != null
      invariant 0 <= i <= |idxs| && indices.Valid() && indices.contents == idxs && temp == indices.NodeAt(i)
      invariant out.Valid() && fresh(out.Nodes() - old(out.Nodes()))
      invariant out.contents == old(out.contents) + MaskedAt(rows, idxs, r, i)
      decreases |idxs| - i
    {
      indices.WalkStep(i);
      var row := rows[temp.data];
      var masked := ApplyMask(value, row.rightshift, row.mask);
      RowHasUid(rows, temp.data);
      AddBitfieldResult(rows, out, row.uid, row.registerUid, masked, value, r.cpu, r.epl, r.midr, r.status);
      temp := temp.next;
      i := i + 1;
    }
  }

  /** All rows of the register below `n`, decoded. */
  ghost function Masked(rows: seq<HeapRow>, r: IoctlResult, n: nat): seq<Populated>
    requires n <= |rows| && ShiftsInWord(rows)
  {
    if n == 0 then []
    else if rows[n - 1].registerUid == r.registerUid then Masked(rows, r, n - 1) + [MaskedRow(rows, n - 1, r)]
    else Masked(rows, r, n - 1)
  }

  lemma {:induction false} MaskedAtPrefix(rows: seq<HeapRow>, a: seq<nat>, b: seq<nat>, r: IoctlResult, n: nat)
    requires ShiftsInWord(rows) && n <= |a| && a <= b
    requires forall m :: 0 <= m < |b| ==> b[m] < |rows|
    ensures MaskedAt(rows, a, r, n) == MaskedAt(rows, b, r, n)
  {
    hide MaskedRow;
    if n > 0 {
      MaskedAtPrefix(rows, a, b, r, n - 1);
    }
  }

  /** Decoding at the indices of a register is decoding its rows. */
  lemma {:induction false} MaskedAtIndices(rows: seq<HeapRow>, r: IoctlResult, n: nat)
    requires ShiftsInWord(rows) && n <= |rows|
    ensures var idxs := IndicesOf(rows, r.registerUid, n); MaskedAt(rows, idxs, r, |idxs|) == Masked(rows, r, n)
  {
    hide MaskedRow;
    if n > 0 {
      MaskedAtIndices(rows, r, n - 1);
      var before, idxs := IndicesOf(rows, r.registerUid, n - 1), IndicesOf(rows, r.registerUid, n);
      MaskedAtPrefix(rows, before, idxs, r, |before|);
    }
  }

  // ----- breakout_filter_results -----

  /** The part gate: the request's part is that of the CPU, or its architecture, or the MIDR is 0. */
  predicate Gate(midr: u32, part: u32) {
    part == ToUnsigned(ImplFromMidr(midr)) || part == ToUnsigned(ArchFromMidr(midr)) || midr == 0
  }

  /** The gate in numbers, with the primary part number of the MIDR: a MIDR of 0 admits every part, a known
      implementation its own part and that of its architecture, and an unknown one the part -1 only. */
  lemma {:induction false} GateExactly(midr: u32, part: u32)
    ensures Gate(midr, part)
       <==> var ppn := midr / 16 % 4096;
            || midr == 0
            || (ppn == 0xC07 && (part == 2 || part == 0))
            || (ppn == 0xC09 && (part == 3 || part == 0))
            || (ppn == 0xC0F && (part == 4 || part == 0))
            || (ppn == 0xD03 && (part == 5 || part == 1))
            || (ppn == 0xD07 && (part == 6 || part == 1))
            || (ppn != 0xC07 && ppn != 0xC09 && ppn != 0xC0F && ppn != 0xD03 && ppn != 0xD07 && part == 0xFFFF_FFFF)
  {
    hide And, Shr, Low, Pow2;
    PrimaryPartNumber(midr);
  }

  lemma PrimaryPartNumber(midr: u32)
    ensures PrimaryPart(midr) == midr / 16 % 4096
  {
    hide And, Shr, Low;
    assert Pow2(4) == 16 by { assert Pow2(2) == 4; }
    assert Pow2(12) == 4096 by { Pow2Values(); }
    ShiftIsDivision(midr, 4);
    ShiftIsDivision(Shr(midr, 4), 12);
    AndLowMask(Shr(midr, 4), 12);
  }

  predicate Joins(q: Request, a: Populated) {
    q.uid == a.uid && Gate(a.midr, q.part)
  }

  predicate SameKey(a: Populated, b: Populated) {
    a.ioctl == b.ioctl && a.cpu == b.cpu && a.status == b.status
  }

  ghost predicate KeySeen(out: seq<Populated>, a: Populated) {
    exists i :: 0 <= i < |out| && SameKey(out[i], a)
  }

  /** The result row of a joined pair when parsing, and when not. */
  ghost function ParsedRow(rows: seq<HeapRow>, a: Populated): Populated
    requires IndexOf(rows, a.uid) < |rows|
  {
    Filled(rows, a.uid, a.ioctl, a.value, 0, a.cpu, a.epl, a.midr, a.status)
  }

  ghost function UnparsedRow(rows: seq<HeapRow>, a: Populated): Populated
    requires IndexOf(rows, a.uid) < |rows|
  {
    Filled(rows, a.uid, a.ioctl, a.uvalue, a.uvalue, a.cpu, a.epl, a.midr, a.status)
      .(bitfield := Label("Unparsed"), description := Label("None"))
  }

  /** One pair of the join. */
  ghost function JoinStep(rows: seq<HeapRow>, out: seq<Populated>, q: Request, a: Populated): seq<Populated>
    requires IndexOf(rows, a.uid) < |rows|
  {
    if !Joins(q, a) then out
    else if q.noparse != 1 then out + [ParsedRow(rows, a)]
    else if KeySeen(out, a) then out
    else out + [UnparsedRow(rows, a)]
  }

  ghost predicate Known(rows: seq<HeapRow>, all: seq<Populated>) {
    forall i :: 0 <= i < |all| ==> IndexOf(rows, all[i].uid) < |rows|
  }

  /** The inner loop: one request against the first `n` decoded rows. */
  ghost function JoinOne(rows: seq<HeapRow>, out: seq<Populated>, q: Request, all: seq<Populated>,
      n: nat): seq<Populated>
    requires n <= |all| && Known(rows, all)
  {
    if n == 0 then out else JoinStep(rows, JoinOne(rows, out, q, all, n - 1), q, all[n - 1])
  }

  /** The outer loop: the first `n` requests. */
  ghost function JoinAll(rows: seq<HeapRow>, out: seq<Populated>, reqs: seq<Request>, all: seq<Populated>,
      n: nat): seq<Populated>
    requires n <= |reqs| && Known(rows, all)
  {
    if n == 0 then out else JoinOne(rows, JoinAll(rows, out, reqs, all, n - 1), reqs[n - 1], all, |all|)
  }

  /** `breakout_add_noparse`: true when the pair is dealt with. */
  method AddNoparse(rows: seq<HeapRow>, list: ListHead<Populated>, q: Request, a: Populated) returns (handled: bool)
    requires list.Valid() && IndexOf(rows, a.uid) < |rows|
    modifies list, list.Nodes()
    ensures list.Valid() && fresh(list.Nodes() - old(list.Nodes()))
    ensures handled <==> q.noparse == 1
    ensures list.contents == old(list.contents)
                           + if q.noparse == 1 && !KeySeen(old(list.contents), a) then [UnparsedRow(rows, a)] else []
  {
    hide IndexOf;
    if q.noparse == 1 {
      ghost var seen := list.contents;
      var temp := list.head;
      ghost var i := 0;
      while temp != null
        invariant 0 <= i <= |seen| && list.Valid() && list.contents == seen && temp == list.NodeAt(i)
        invariant list.Nodes() == old(list.Nodes())
        invariant forall k :: 0 <= k < i ==> !SameKey(seen[k], a)
        decreases |seen| - i
      {
        assert list.LinkedAt(i);
        if temp.data.ioctl == a.ioctl && temp.data.cpu == a.cpu && temp.data.status == a.status {
          assert SameKey(seen[i], a);
          return true;
        }
        temp := temp.next;
        i := i + 1;
      }
      var found, index := GetIndex(rows, a.uid);
      var row := rows[index];
      list.Append(Populated(a.uid, a.ioctl, a.uvalue, a.uvalue, a.cpu, a.epl, a.midr, a.status,
                            Label("Unparsed"), row.functionalGroup, row.registerName, Label("None")));
      return true;
    } else {
      return false;
    }
  }

  /** The body of the inner loop. */
  method JoinPair(rows: seq<HeapRow>, q: Request, a: Populated, out: ListHead<Populated>)
    requires out.Valid() && IndexOf(rows, a.uid) < |rows|
    modifies out, out.Nodes()
    ensures out.Valid() && fresh(out.Nodes() - old(out.Nodes()))
    ensures out.contents == JoinStep(rows, old(out.contents), q, a)
  {
    hide IndexOf, ImplFromMidr, ArchFromMidr;
    if q.uid == a.uid {
      var impl, arch := ImplFromMidr(a.midr), ArchFromMidr(a.midr);
      if ToUnsigned(impl) == q.part || ToUnsigned(arch) == q.part || a.midr == 0 {
        var handled := AddNoparse(rows, out, q, a);
        if !handled {
          IndexBelowHasUid(rows, a.uid);
          AddBitfieldResult(rows, out, a.uid, a.ioctl, a.value, 0, a.cpu, a.epl, a.midr, a.status);
        }
      }
    }
  }

  lemma IndexBelowHasUid(rows: seq<HeapRow>, uid: u32)
    ensures IndexOf(rows, uid) < |rows| <==> HasUid(rows, uid)
  {
    IndexFromIsFirst(rows, uid, 0);
  }

  /** The inner loop of `breakout_filter_results`. */
  method JoinRequest(rows: seq<HeapRow>, q: Request, all: ListHead<Populated>, out: ListHead<Populated>)
    requires all.Valid() && out.Valid() && all != out && all.Nodes() !! out.Nodes() && Known(rows, all.contents)
    modifies out, out.Nodes()
    ensures out.Valid() && fresh(out.Nodes() - old(out.Nodes()))
    ensures out.contents == JoinOne(rows, old(out.contents), q, all.contents, |all.contents|)
  {
    hide JoinStep, IndexOf, ListHead.Valid;
    all.WalkStart();
    ghost var pieces := all.contents;
    var temp := all.head;
    ghost var i := 0;
    while temp != null
      invariant 0 <= i <= |pieces| && all.Valid() && all.contents == pieces && temp == all.NodeAt(i)
      invariant out.Valid() && fresh(out.Nodes() - old(out.Nodes())) && all.Nodes() == old(all.Nodes())
      invariant out.contents == JoinOne(rows, old(out.contents), q, pieces, i)
      decreases |pieces| - i
    {
      all.WalkStep(i);
      JoinPair(rows, q, temp.data, out);
      temp := temp.next;
      i := i + 1;
    }
  }

  /** `breakout_filter_results`. */
  method FilterResults(rows: seq<HeapRow>, all: ListHead<Populated>, requested: ListHead<Request>,
      out: ListHead<Populated>)
    requires all.Valid() && requested.Valid() && out.Valid() && all != out && all.Nodes() !! out.Nodes()
    requires Known(rows, all.contents)
    modifies out, out.Nodes()
    ensures out.Valid() && fresh(out.Nodes() - old(out.Nodes()))
    ensures out.contents == JoinAll(rows, old(out.contents), requested.contents, all.contents, |requested.contents|)
  {
    hide JoinOne, IndexOf, ListHead.Valid;
    requested.WalkStart();
    ghost var reqs, pieces := requested.contents, all.contents;
    var temp := requested.head;
    ghost var i := 0;
    while temp != null
      invariant 0 <= i <= |reqs| && requested.Valid() && requested.contents == reqs && temp == requested.NodeAt(i)
      invariant all.Valid() && all.contents == pieces && all.Nodes() == old(all.Nodes())
      invariant out.Valid() && fresh(out.Nodes() - old(out.Nodes()))
      invariant out.contents == JoinAll(rows, old(out.contents), reqs, pieces, i)
      decreases |reqs| - i
    {
      requested.WalkStep(i);
      JoinRequest(rows, temp.data, all, out);
      temp := temp.next;
      i := i + 1;
    }
  }

  // ----- breakout_parse_results -----

  lemma {:induction false} MaskedKnown(rows: seq<HeapRow>, r: IoctlResult, n: nat)
    requires n <= |rows| && ShiftsInWord(rows)
    ensures Known(rows, Masked(rows, r, n))
  {
    hide IndexOf, ApplyMask, ValueToLong;
    if n > 0 {
      MaskedKnown(rows, r, n - 1);
      RowHasUid(rows, n - 1);
    }
  }

  /** One raw result against all requests. */
  ghost function ParseOne(rows: seq<HeapRow>, out: seq<Populated>, r: IoctlResult, reqs: seq<Request>): seq<Populated>
    requires ShiftsInWord(rows)
  {
    MaskedKnown(rows, r, |rows|);
    JoinAll(rows, out, reqs, Masked(rows, r, |rows|), |reqs|)
  }

  ghost function ParseAll(rows: seq<HeapRow>, out: seq<Populated>, results: seq<IoctlResult>, reqs: seq<Request>,
      n: nat): seq<Populated>
    requires ShiftsInWord(rows) && n <= |results|
  {
    if n == 0 then out else ParseOne(rows, ParseAll(rows, out, results, reqs, n - 1), results[n - 1], reqs)
  }

  /** The two temporary lists of one turn: the rows of the register, and the decoded pieces. */
  method DecodeRegister(rows: seq<HeapRow>, r: IoctlResult)
      returns (indices: ListHead<nat>, masked: ListHead<Populated>)
    requires ShiftsInWord(rows)
    ensures fresh(indices) && fresh(indices.Nodes()) && indices.Valid()
    ensures fresh(masked) && fresh(masked.Nodes()) && masked.Valid()
    ensures masked.contents == Masked(rows, r, |rows|)
  {
    hide IndexOf, MaskedRow, MaskedAt, Masked;
    indices := new ListHead();
    masked := new ListHead();
    ConstructBitfieldList(rows, r.registerUid, indices);
    assert indices.contents == IndicesOf(rows, r.registerUid, |rows|);
    ApplyMasksToList(rows, r, indices, masked);
    MaskedAtIndices(rows, r, |rows|);
  }

  /** The body of the loop of `breakout_parse_results`; it leaves its two temporary lists empty. */
  method ParseResult(rows: seq<HeapRow>, r: IoctlResult, matches: ListHead<Request>, out: ListHead<Populated>)
      returns (indices: ListHead<nat>, masked: ListHead<Populated>)
    requires ShiftsInWord(rows) && matches.Valid() && out.Valid()
    modifies out, out.Nodes()
    ensures out.Valid() && fresh(out.Nodes() - old(out.Nodes()))
    ensures out.contents == ParseOne(rows, old(out.contents), r, matches.contents)
    ensures fresh(indices) && indices.Valid() && indices.contents == []
    ensures fresh(masked) && masked != out && masked.Valid() && masked.contents == []
  {
    hide JoinAll, IndexOf, Masked, ListHead.Valid;
    indices, masked := DecodeRegister(rows, r);
    MaskedKnown(rows, r, |rows|);
    FilterResults(rows, masked, matches, out);
    indices.Free();
    masked.Free();
  }

  /** `breakout_parse_results`. Its two temporary lists are initialised in the loop only, and released
      once more at the end: without any raw result the heads released are uninitialised, and what
      happens is undefined. */
  method ParseResults(rows: seq<HeapRow>, results: ListHead<IoctlResult>, matches: ListHead<Request>,
      out: ListHead<Populated>) returns (defined: bool)
    requires ShiftsInWord(rows) && results.Valid() && matches.Valid() && out.Valid()
    modifies out, out.Nodes()
    ensures defined <==> results.contents != []
    ensures out.Valid() && fresh(out.Nodes() - old(out.Nodes()))
    ensures defined ==>
              out.contents == ParseAll(rows, old(out.contents), results.contents, matches.contents, |results.contents|)
  {
    hide ParseOne, ShiftsInWord, ListHead.Valid;
    results.WalkStart();
    ghost var raw := results.contents;
    var indices: ListHead?<nat>, masked: ListHead?<Populated> := null, null;
    var temp := results.head;
    ghost var i := 0;
    while temp != null
      invariant 0 <= i <= |raw| && results.Valid() && results.contents == raw && temp == results.NodeAt(i)
      invariant matches.Valid() && matches.contents == old(matches.contents)
      invariant out.Valid() && fresh(out.Nodes() - old(out.Nodes()))
      invariant out.contents == ParseAll(rows, old(out.contents), raw, matches.contents, i)
      invariant indices == null <==> i == 0
      invariant masked == null <==> i == 0
      invariant indices != null ==> fresh(indices) && indices.Valid() && indices.contents == []
      invariant masked != null ==> fresh(masked) && masked != out && masked.Valid() && masked.contents == []
      decreases |raw| - i
    {
      results.WalkStep(i);
      indices, masked := ParseResult(rows, temp.data, matches, out);
      temp := temp.next;
      i := i + 1;
    }
    if indices == null || masked == null {
      return false;
    }
    ReleaseEmpty(indices);
    ReleaseEmpty(masked);
    return true;
  }

  /** Releasing a list a second time does nothing. */
  method ReleaseEmpty<T>(list: ListHead<T>)
    requires list.Valid() && list.contents == []
    modifies list
    ensures list.Valid() && list.contents == []
  {
    list.Free();
  }
}
