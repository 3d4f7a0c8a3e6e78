/** What the decode pipeline computes: one nested comprehension over raw results and requests. */
module JoinSpec {
  import opened Bits
  import opened Parse
  import opened Decode
  import opened Tables
  import opened Lookup
  import opened Join

  // ----- the comprehension -----

  /** The register value that a raw result carries. */
  ghost function RawValue(r: IoctlResult): u64 {
    if r.low == 0 && r.high == 0 then r.val64 else r.high * 0x1_0000_0000 + r.low
  }

  /** The request's row belongs to the register that was read, and its part passes the gate. */
  ghost predicate Answers(rows: seq<HeapRow>, r: IoctlResult, q: Request) {
    && IndexOf(rows, q.uid) < |rows|
    && rows[IndexOf(rows, q.uid)].registerUid == r.registerUid
    && Gate(r.midr, q.part)
  }

  /** Row `i` of the table decoded from a raw result: the value shifted down, modulo its width. */
  ghost function Decoded(rows: seq<HeapRow>, i: nat, r: IoctlResult): Populated
    requires i < |rows|
  {
    var row := rows[i];
    QuotientIsNat(RawValue(r), Pow2(row.rightshift));
    Populated(row.uid, r.registerUid,
              if row.mask <= 64 then RawValue(r) / Pow2(row.rightshift) % Pow2(row.mask) else 0, 0,
              r.cpu, r.epl, r.midr, r.status, row.bitfield, row.functionalGroup, row.registerName, row.description)
  }

  /** Row `i` shown unparsed: the whole register value. */
  ghost function Undecoded(rows: seq<HeapRow>, i: nat, r: IoctlResult): Populated
    requires i < |rows|
  {
    var row := rows[i];
    Populated(row.uid, r.registerUid, RawValue(r), RawValue(r), r.cpu, r.epl, r.midr, r.status,
              Label("Unparsed"), row.functionalGroup, row.registerName, Label("None"))
  }

  lemma QuotientIsNat(a: nat, d: nat)
    requires d > 0
    ensures a / d >= 0
  {}

  /** The rows for one result and one request: one or none. */
  ghost function RowsFor(rows: seq<HeapRow>, r: IoctlResult, q: Request, parse: bool): seq<Populated> {
    if !Answers(rows, r, q) then []
    else if parse then [Decoded(rows, IndexOf(rows, q.uid), r)]
    else [Undecoded(rows, IndexOf(rows, q.uid), r)]
  }

  ghost function ForRequests(rows: seq<HeapRow>, r: IoctlResult, reqs: seq<Request>, parse: bool,
      n: nat): seq<Populated>
    requires n <= |reqs|
  {
    if n == 0 then [] else ForRequests(rows, r, reqs, parse, n - 1) + RowsFor(rows, r, reqs[n - 1], parse)
  }

  /** For each raw result in order, for each request in order, the row that answers it. */
  ghost function ForResults(rows: seq<HeapRow>, results: seq<IoctlResult>, reqs: seq<Request>, parse: bool,
      n: nat): seq<Populated>
    requires n <= |results|
  {
    if n == 0 then []
    else ForResults(rows, results, reqs, parse, n - 1) + ForRequests(rows, results[n - 1], reqs, parse, |reqs|)
  }

  // ----- the join finds the one row that a request names -----

  lemma ValueIsRaw(r: IoctlResult)
    ensures ValueToLong(r.val64, r.low, r.high) == RawValue(r)
  {
    hide Or, Shl64;
    ConcatWords(r.low, r.high);
  }

  lemma {:induction false} JoinOnePrefix(rows: seq<HeapRow>, out: seq<Populated>, q: Request, a: seq<Populated>,
      b: seq<Populated>, n: nat)
    requires Known(rows, a) && Known(rows, b) && a <= b && n <= |a|
    ensures JoinOne(rows, out, q, a, n) == JoinOne(rows, out, q, b, n)
  {
    hide JoinStep, IndexOf, Known;
    if n > 0 {
      JoinOnePrefix(rows, out, q, a, b, n - 1);
    }
  }

  lemma MaskedRowFacts(rows: seq<HeapRow>, i: nat, r: IoctlResult)
    requires i < |rows| && ShiftsInWord(rows) && UidsDistinct(rows)
    ensures MaskedRow(rows, i, r).uid == rows[i].uid && MaskedRow(rows, i, r).midr == r.midr
    ensures MaskedRow(rows, i, r).ioctl == rows[i].registerUid
    ensures MaskedRow(rows, i, r).cpu == r.cpu && MaskedRow(rows, i, r).epl == r.epl
    ensures MaskedRow(rows, i, r).status == r.status
    ensures MaskedRow(rows, i, r).uvalue == RawValue(r)
    ensures MaskedRow(rows, i, r).value == ApplyMask(RawValue(r), rows[i].rightshift, rows[i].mask)
    ensures IndexOf(rows, rows[i].uid) == i
  {
    hide ApplyMask, ValueToLong, RawValue;
    ValueIsRaw(r);
    LookupInverts(rows);
  }

  /** A decoded row that the request does not name, or that fails the gate, adds nothing. */
  lemma JoinStepMisses(rows: seq<HeapRow>, out: seq<Populated>, q: Request, r: IoctlResult, i: nat)
    requires ShiftsInWord(rows) && UidsDistinct(rows) && i < |rows| && rows[i].registerUid == r.registerUid
    requires IndexOf(rows, MaskedRow(rows, i, r).uid) < |rows|
    ensures IndexOf(rows, q.uid) != i || !Answers(rows, r, q) ==> JoinStep(rows, out, q, MaskedRow(rows, i, r)) == out
  {
    hide UidsDistinct, MaskedRow, Gate, ShiftsInWord, IndexOf;
    MaskedRowFacts(rows, i, r);
  }

  /** Of all decoded rows of a register, a request joins with the one that it names. */
  lemma {:induction false} JoinOneExact(rows: seq<HeapRow>, out: seq<Populated>, q: Request, r: IoctlResult, n: nat)
    requires ShiftsInWord(rows) && UidsDistinct(rows) && n <= |rows|
    requires Known(rows, Masked(rows, r, n))
    ensures JoinOne(rows, out, q, Masked(rows, r, n), |Masked(rows, r, n)|)
         == if Answers(rows, r, q) && IndexOf(rows, q.uid) < n then
              (MaskedRowFacts(rows, IndexOf(rows, q.uid), r);
               JoinStep(rows, out, q, MaskedRow(rows, IndexOf(rows, q.uid), r)))
            else out
  {
    hide UidsDistinct, MaskedRow, Gate, ShiftsInWord, IndexOf, JoinStep;
    if n > 0 {
      MaskedKnown(rows, r, n - 1);
      JoinOneExact(rows, out, q, r, n - 1);
      MaskedRowFacts(rows, n - 1, r);
      if rows[n - 1].registerUid == r.registerUid {
        var before := Masked(rows, r, n - 1);
        JoinStepMisses(rows, JoinOne(rows, out, q, before, |before|), q, r, n - 1);
        JoinOnePrefix(rows, out, q, Masked(rows, r, n - 1), Masked(rows, r, n), |Masked(rows, r, n - 1)|);
      }
    }
  }

  // ----- parsed results -----

  /** A joined pair in parsed mode is the row decoded by division. */
  lemma ParsedStep(rows: seq<HeapRow>, out: seq<Populated>, q: Request, r: IoctlResult)
    requires ShiftsInWord(rows) && UidsDistinct(rows) && Answers(rows, r, q)
    requires IndexOf(rows, MaskedRow(rows, IndexOf(rows, q.uid), r).uid) < |rows|
    ensures JoinStep(rows, out, q, MaskedRow(rows, IndexOf(rows, q.uid), r))
         == if q.noparse != 1 then out + RowsFor(rows, r, q, true)
            else DedupStep(out, Undecoded(rows, IndexOf(rows, q.uid), r))
  {
    hide UidsDistinct, MaskedRow, Gate, IndexOf, ApplyMask, RawValue, Pow2;
    var i := IndexOf(rows, q.uid);
    IndexOfNamesUid(rows, q.uid);
    MaskedRowFacts(rows, i, r);
    FieldValue(RawValue(r), rows[i].rightshift, rows[i].mask);
  }

  /** Adding a row unless its key is there already. */
  ghost function DedupStep(out: seq<Populated>, x: Populated): seq<Populated> {
    if KeySeen(out, x) then out else out + [x]
  }

  lemma {:induction false} JoinAllParsed(rows: seq<HeapRow>, out: seq<Populated>, r: IoctlResult,
      reqs: seq<Request>, n: nat)
    requires ShiftsInWord(rows) && UidsDistinct(rows) && n <= |reqs|
    requires forall i :: 0 <= i < |reqs| ==> reqs[i].noparse != 1
    requires Known(rows, Masked(rows, r, |rows|))
    ensures JoinAll(rows, out, reqs, Masked(rows, r, |rows|), n) == out + ForRequests(rows, r, reqs, true, n)
  {
    hide UidsDistinct, MaskedRow, ShiftsInWord, IndexOf, JoinStep, JoinOne, Masked, Known, Decoded, Gate;
    if n > 0 {
      JoinAllParsed(rows, out, r, reqs, n - 1);
      JoinOneAnswer(rows, JoinAll(rows, out, reqs, Masked(rows, r, |rows|), n - 1), reqs[n - 1], r);
    }
  }

  /** One request against all decoded rows of a register. */
  lemma JoinOneAnswer(rows: seq<HeapRow>, out: seq<Populated>, q: Request, r: IoctlResult)
    requires ShiftsInWord(rows) && UidsDistinct(rows)
    requires Known(rows, Masked(rows, r, |rows|))
    ensures JoinOne(rows, out, q, Masked(rows, r, |rows|), |Masked(rows, r, |rows|)|)
         == if q.noparse != 1 then out + RowsFor(rows, r, q, true) else DedupAll(out, RowsFor(rows, r, q, false))
  {
    hide UidsDistinct, MaskedRow, ShiftsInWord, IndexOf, JoinStep, JoinOne, Masked, Known, Decoded, Undecoded, Gate;
    JoinOneExact(rows, out, q, r, |rows|);
    if Answers(rows, r, q) {
      MaskedRowFacts(rows, IndexOf(rows, q.uid), r);
      ParsedStep(rows, out, q, r);
      var x := Undecoded(rows, IndexOf(rows, q.uid), r);
      assert [x][..0] == [];
    }
  }

  /** The parse pipeline in parsed mode: for each raw result in order and each request in order,
      exactly one row when the result answers the request and none otherwise, its value the bits of
      the register value that the request's row names. */
  lemma {:induction false} PipelineIsComprehension(rows: seq<HeapRow>, out: seq<Populated>,
      results: seq<IoctlResult>, reqs: seq<Request>, n: nat)
    requires ShiftsInWord(rows) && UidsDistinct(rows) && n <= |results|
    requires forall i :: 0 <= i < |reqs| ==> reqs[i].noparse != 1
    ensures ParseAll(rows, out, results, reqs, n) == out + ForResults(rows, results, reqs, true, n)
  {
    hide UidsDistinct, ShiftsInWord, IndexOf, JoinAll, ForRequests;
    if n > 0 {
      PipelineIsComprehension(rows, out, results, reqs, n - 1);
      MaskedKnown(rows, results[n - 1], |rows|);
      JoinAllParsed(rows, ParseAll(rows, out, results, reqs, n - 1), results[n - 1], reqs, |reqs|);
    } else {
      assert out + [] == out;
    }
  }

  // ----- unparsed results -----

  /** Adding rows one by one, each unless its key is there already. */
  ghost function DedupAll(out: seq<Populated>, xs: seq<Populated>): seq<Populated> {
    if xs == [] then out else DedupStep(DedupAll(out, xs[..|xs| - 1]), xs[|xs| - 1])
  }

  lemma {:induction false} DedupConcat(out: seq<Populated>, a: seq<Populated>, b: seq<Populated>)
    ensures DedupAll(out, a + b) == DedupAll(DedupAll(out, a), b)
  {
    hide DedupStep;
    if b == [] {
      assert a + b == a;
    } else {
      DedupConcat(out, a, b[..|b| - 1]);
      assert (a + b)[..|a + b| - 1] == a + b[..|b| - 1];
    }
  }

  lemma {:induction false} JoinAllUnparsed(rows: seq<HeapRow>, out: seq<Populated>, r: IoctlResult,
      reqs: seq<Request>, n: nat)
    requires ShiftsInWord(rows) && UidsDistinct(rows) && n <= |reqs|
    requires forall i :: 0 <= i < |reqs| ==> reqs[i].noparse == 1
    requires Known(rows, Masked(rows, r, |rows|))
    ensures JoinAll(rows, out, reqs, Masked(rows, r, |rows|), n) == DedupAll(out, ForRequests(rows, r, reqs, false, n))
  {
    hide UidsDistinct, MaskedRow, ShiftsInWord, IndexOf, JoinStep, JoinOne, Masked, Known, RowsFor;
    if n > 0 {
      JoinAllUnparsed(rows, out, r, reqs, n - 1);
      JoinOneAnswer(rows, JoinAll(rows, out, reqs, Masked(rows, r, |rows|), n - 1), reqs[n - 1], r);
      DedupConcat(out, ForRequests(rows, r, reqs, false, n - 1), RowsFor(rows, r, reqs[n - 1], false));
    }
  }

  /** The parse pipeline in unparsed mode is the comprehension of whole register values, each row
      added unless its register, CPU and status are there already. */
  lemma {:induction false} UnparsedPipelineIsDedup(rows: seq<HeapRow>, out: seq<Populated>,
      results: seq<IoctlResult>, reqs: seq<Request>, n: nat)
    requires ShiftsInWord(rows) && UidsDistinct(rows) && n <= |results|
    requires forall i :: 0 <= i < |reqs| ==> reqs[i].noparse == 1
    ensures ParseAll(rows, out, results, reqs, n) == DedupAll(out, ForResults(rows, results, reqs, false, n))
  {
    hide UidsDistinct, ShiftsInWord, IndexOf, JoinAll, ForRequests;
    if n > 0 {
      UnparsedPipelineIsDedup(rows, out, results, reqs, n - 1);
      MaskedKnown(rows, results[n - 1], |rows|);
      JoinAllUnparsed(rows, ParseAll(rows, out, results, reqs, n - 1), results[n - 1], reqs, |reqs|);
      DedupConcat(out, ForResults(rows, results, reqs, false, n - 1),
                  ForRequests(rows, results[n - 1], reqs, false, |reqs|));
    }
  }

  ghost predicate KeysDistinct(out: seq<Populated>) {
    forall i, j :: 0 <= i < j < |out| ==> !SameKey(out[i], out[j])
  }

  /** `x` is in `xs`, and no row before it there has its key. */
  ghost predicate FirstWithKey(xs: seq<Populated>, x: Populated) {
    exists m :: 0 <= m < |xs| && xs[m] == x && forall k :: 0 <= k < m ==> !SameKey(xs[k], x)
  }

  lemma KeySeenExtended(out: seq<Populated>, x: Populated, y: Populated)
    ensures KeySeen(out + [x], y) <==> KeySeen(out, y) || SameKey(x, y)
  {
    if KeySeen(out, y) {
      var i :| 0 <= i < |out| && SameKey(out[i], y);
      assert SameKey((out + [x])[i], y);
    }
    assert (out + [x])[|out|] == x;
  }

  /** Deduplication keeps, for every key, the first row with that key, and no key twice. */
  lemma {:induction false} DedupKeepsFirsts(xs: seq<Populated>)
    ensures KeysDistinct(DedupAll([], xs))
    ensures forall y :: KeySeen(DedupAll([], xs), y) <==> KeySeen(xs, y)
    ensures forall i :: 0 <= i < |DedupAll([], xs)| ==> FirstWithKey(xs, DedupAll([], xs)[i])
  {
    if xs != [] {
      var before, x := xs[..|xs| - 1], xs[|xs| - 1];
      var kept := DedupAll([], before);
      DedupKeepsFirsts(before);
      assert xs == before + [x];
      forall y
        ensures KeySeen(DedupAll([], xs), y) <==> KeySeen(xs, y)
      {
        KeySeenExtended(before, x, y);
        KeySeenExtended(kept, x, y);
      }
      forall i | 0 <= i < |DedupAll([], xs)|
        ensures FirstWithKey(xs, DedupAll([], xs)[i])
      {
        FirstWithKeyExtended(before, x, i, kept);
      }
    }
  }

  lemma FirstWithKeyExtended(before: seq<Populated>, x: Populated, i: nat, kept: seq<Populated>)
    requires forall y :: KeySeen(kept, y) <==> KeySeen(before, y)
    requires forall j :: 0 <= j < |kept| ==> FirstWithKey(before, kept[j])
    requires i < |DedupStep(kept, x)|
    ensures FirstWithKey(before + [x], DedupStep(kept, x)[i])
  {
    var xs := before + [x];
    if i < |kept| {
      var y := kept[i];
      var m :| 0 <= m < |before| && before[m] == y && forall k :: 0 <= k < m ==> !SameKey(before[k], y);
      assert xs[m] == y && forall k :: 0 <= k < m ==> !SameKey(xs[k], y);
    } else {
      assert xs[|before|] == x && !KeySeen(before, x);
      assert forall k :: 0 <= k < |before| ==> !SameKey(xs[k], x);
    }
  }

  /** Unparsed mode over all accumulated results: register, CPU and status never repeat, every
      answered pair's key is there, and each row is the first with its key: a whole register value. */
  lemma {:induction false} UnparsedPipelineExact(rows: seq<HeapRow>, results: seq<IoctlResult>, reqs: seq<Request>)
    requires ShiftsInWord(rows) && UidsDistinct(rows)
    requires forall i :: 0 <= i < |reqs| ==> reqs[i].noparse == 1
    ensures KeysDistinct(ParseAll(rows, [], results, reqs, |results|))
    ensures forall x :: KeySeen(ParseAll(rows, [], results, reqs, |results|), x)
                   <==> KeySeen(ForResults(rows, results, reqs, false, |results|), x)
    ensures forall i :: 0 <= i < |ParseAll(rows, [], results, reqs, |results|)| ==>
              FirstWithKey(ForResults(rows, results, reqs, false, |results|),
                           ParseAll(rows, [], results, reqs, |results|)[i])
  {
    hide UidsDistinct, ShiftsInWord, ForRequests, KeysDistinct, FirstWithKey;
    UnparsedPipelineIsDedup(rows, [], results, reqs, |results|);
    DedupKeepsFirsts(ForResults(rows, results, reqs, false, |results|));
  }
}
